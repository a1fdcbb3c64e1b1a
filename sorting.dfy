/** The in-place comparison sort behind `usort` and `uasort`. PHP hands the
    comparator two elements and reads the sign of the integer it returns. */
module Sorting {
  import opened PhpArray

  /** What PHP's sort needs of a user comparator: it orders every pair one
      way or the other, and "not after" is transitive. */
  ghost predicate Comparator<T(!new)>(cmp: (T, T) -> int) {
    && (forall x, y :: cmp(x, y) <= 0 || cmp(y, x) <= 0)
    && (forall x, y, z :: cmp(x, y) <= 0 && cmp(y, z) <= 0 ==> cmp(x, z) <= 0)
  }

  /** No element is placed after one the comparator puts before it. */
  ghost predicate SortedBy<T>(s: seq<T>, cmp: (T, T) -> int) {
    forall i, j :: 0 <= i < j < |s| ==> cmp(s[i], s[j]) <= 0
  }

  /** s[lo..hi) is in comparator order. */
  ghost predicate SortedRange<T>(s: seq<T>, lo: int, hi: int, cmp: (T, T) -> int) {
    forall p, q :: lo <= p < q < hi && 0 <= p && q < |s| ==> cmp(s[p], s[q]) <= 0
  }

  /** Everything in s[..j) comes no later than everything in s(j..hi). */
  ghost predicate Below<T>(s: seq<T>, j: int, hi: int, cmp: (T, T) -> int) {
    forall p, q :: 0 <= p < j < q < hi && q < |s| ==> cmp(s[p], s[q]) <= 0
  }

  /** Insertion sort: each element in turn is sunk into the sorted prefix.
      The result is sorted and holds exactly the elements it started with. */
  method InsertionSort<T(!new)>(a: array<T>, cmp: (T, T) -> int)
    requires Comparator(cmp)
    modifies a
    ensures SortedBy(a[..], cmp)
    ensures multiset(a[..]) == old(multiset(a[..]))
  {
    var i := 0;
    while i < a.Length
      invariant 0 <= i <= a.Length
      invariant SortedRange(a[..], 0, i, cmp)
      invariant multiset(a[..]) == old(multiset(a[..]))
    {
      Sink(a, i, cmp);
      i := i + 1;
    }
  }

  /** Moves a[i] left past every strictly greater neighbour, so that a
      sorted a[..i] becomes a sorted a[..i+1]. */
  method Sink<T(!new)>(a: array<T>, i: nat, cmp: (T, T) -> int)
    requires Comparator(cmp)
    requires i < a.Length && SortedRange(a[..], 0, i, cmp)
    modifies a
    ensures SortedRange(a[..], 0, i + 1, cmp)
    ensures multiset(a[..]) == old(multiset(a[..]))
  {
    var j := i;
    while j > 0 && cmp(a[j - 1], a[j]) > 0
      invariant 0 <= j <= i
      invariant SortedRange(a[..], 0, j, cmp)
      invariant SortedRange(a[..], j, i + 1, cmp)
      invariant Below(a[..], j, i + 1, cmp)
      invariant multiset(a[..]) == old(multiset(a[..]))
    {
      SwapDown(a, j, i, cmp);
      j := j - 1;
    }
    SinkDone(a[..], j, i, cmp);
  }

  /** One step of the sinking: a[j] swaps with its greater left neighbour. */
  method SwapDown<T(!new)>(a: array<T>, j: nat, i: nat, cmp: (T, T) -> int)
    requires Comparator(cmp)
    requires 0 < j <= i < a.Length && cmp(a[j - 1], a[j]) > 0
    requires SortedRange(a[..], 0, j, cmp) && SortedRange(a[..], j, i + 1, cmp) && Below(a[..], j, i + 1, cmp)
    modifies a
    ensures SortedRange(a[..], 0, j - 1, cmp) && SortedRange(a[..], j - 1, i + 1, cmp) && Below(a[..], j - 1, i + 1, cmp)
    ensures a[..] == old(a[..])[j - 1 := old(a[j])][j := old(a[j - 1])]
    ensures multiset(a[..]) == old(multiset(a[..]))
  {
    SwapStep(a[..], j, i, cmp);
    a[j - 1], a[j] := a[j], a[j - 1];
  }

  /** Swapping an out-of-order neighbour pair moves the gap one step left
      and keeps both sorted runs. */
  lemma SwapStep<T(!new)>(s: seq<T>, j: nat, i: nat, cmp: (T, T) -> int)
    requires Comparator(cmp)
    requires 0 < j <= i < |s| && cmp(s[j - 1], s[j]) > 0
    requires SortedRange(s, 0, j, cmp) && SortedRange(s, j, i + 1, cmp) && Below(s, j, i + 1, cmp)
    ensures var t := s[j - 1 := s[j]][j := s[j - 1]];
      SortedRange(t, 0, j - 1, cmp) && SortedRange(t, j - 1, i + 1, cmp) && Below(t, j - 1, i + 1, cmp)
  {
    var t := s[j - 1 := s[j]][j := s[j - 1]];
    assert cmp(s[j], s[j - 1]) <= 0;
    forall p, q | j - 1 <= p < q < i + 1 ensures cmp(t[p], t[q]) <= 0 {
      if p == j - 1 && q > j {
        assert cmp(s[j], s[q]) <= 0;
      } else if p == j {
        assert cmp(s[j - 1], s[q]) <= 0;
      }
    }
  }

  /** When the sinking stops, the runs on either side of the gap join. */
  lemma SinkDone<T(!new)>(s: seq<T>, j: nat, i: nat, cmp: (T, T) -> int)
    requires Comparator(cmp)
    requires j <= i < |s| && (j == 0 || cmp(s[j - 1], s[j]) <= 0)
    requires SortedRange(s, 0, j, cmp) && SortedRange(s, j, i + 1, cmp) && Below(s, j, i + 1, cmp)
    ensures SortedRange(s, 0, i + 1, cmp)
  {
    forall p, q | 0 <= p < q < i + 1 ensures cmp(s[p], s[q]) <= 0 {
      if p < j && q == j {
        if p < j - 1 {
          assert cmp(s[p], s[j - 1]) <= 0;
        }
      }
    }
  }
  // ------------------------------------------------------------- stability

  /** Two elements the comparator puts in neither order: PHP's sort keeps
      such elements in the order they came in. */
  ghost predicate Tied<T>(cmp: (T, T) -> int, x: T, y: T) {
    cmp(x, y) <= 0 && cmp(y, x) <= 0
  }

  /** The input position an integer tag records. Tags are the keys of
      `List(s)`, so every one of them is I(p) with p >= 0. */
  function Pos(k: Key): nat {
    if k.I? && k.i >= 0 then k.i else 0
  }

  /** The comparator on tagged elements: by element first, and by input
      position between tied elements. */
  function ByPosition<T>(cmp: (T, T) -> int): ((Key, T), (Key, T)) -> int {
    (x: (Key, T), y: (Key, T)) =>
      if cmp(x.1, y.1) <= 0 && cmp(y.1, x.1) <= 0 then Pos(x.0) - Pos(y.0) else cmp(x.1, y.1)
  }

  /** Breaking ties by position keeps the comparator's laws. */
  lemma ByPositionComparator<T(!new)>(cmp: (T, T) -> int)
    requires Comparator(cmp)
    ensures Comparator(ByPosition(cmp))
  {
    var b := ByPosition(cmp);
    forall x: (Key, T), y: (Key, T) ensures b(x, y) <= 0 || b(y, x) <= 0 {
      assert cmp(x.1, y.1) <= 0 || cmp(y.1, x.1) <= 0;
    }
    forall x: (Key, T), y: (Key, T), z: (Key, T) | b(x, y) <= 0 && b(y, z) <= 0
      ensures b(x, z) <= 0
    {
      assert cmp(x.1, y.1) <= 0 && cmp(y.1, z.1) <= 0;
      assert cmp(x.1, z.1) <= 0;
      if cmp(z.1, x.1) <= 0 {
        assert Tied(cmp, x.1, y.1) && Tied(cmp, y.1, z.1) by {
          assert cmp(z.1, y.1) <= 0 by { assert cmp(z.1, x.1) <= 0 && cmp(x.1, y.1) <= 0; }
          assert cmp(y.1, x.1) <= 0 by { assert cmp(y.1, z.1) <= 0 && cmp(z.1, x.1) <= 0; }
        }
      }
    }
  }

  /** In a sequence of pairwise distinct elements each occurs at most once. */
  lemma {:induction false} CountAtMostOne<T>(q: seq<T>, x: T)
    requires forall k, l :: 0 <= k < l < |q| ==> q[k] != q[l]
    ensures multiset(q)[x] <= 1
    decreases |q|
  {
    if q != [] {
      var init := q[..|q| - 1];
      CountAtMostOne(init, x);
      assert q == init + [q[|q| - 1]];
      assert q[|q| - 1] !in init;
    }
  }

  /** An element at two positions occurs at least twice. */
  lemma CountTwice<T>(q: seq<T>, k: nat, l: nat)
    requires k < l < |q| && q[k] == q[l]
    ensures multiset(q)[q[k]] >= 2
  {
    assert q == q[..l] + q[l..];
    assert q[k] in q[..l] && q[l] in q[l..];
  }

  /** Taking the element at j out of q: its count drops by one, and its
      value drops out of the values. */
  lemma RemoveAt<T>(q: seq<(Key, T)>, j: nat)
    requires j < |q|
    ensures multiset(q) == multiset(q[..j] + q[j + 1..]) + multiset{q[j]}
    ensures multiset(Values(q)) == multiset(Values(q[..j] + q[j + 1..])) + multiset{q[j].1}
  {
    var a, b := q[..j], q[j + 1..];
    assert q == a + [q[j]] + b;
    ValuesConcat(a + [q[j]], b);
    ValuesConcat(a, [q[j]]);
    ValuesConcat(a, b);
    var va, vb := Values(a), Values(b);
    assert Values(q) == va + [q[j].1] + vb;
    assert multiset(Values(q)) == multiset(va) + multiset{q[j].1} + multiset(vb);
    assert multiset(Values(a + b)) == multiset(va) + multiset(vb);
  }

  /** The values of a concatenation. */
  lemma ValuesConcat<T>(a: seq<(Key, T)>, b: seq<(Key, T)>)
    ensures Values(a + b) == Values(a) + Values(b)
  {
  }

  /** Two permutations of each other have values that are permutations of
      each other. */
  lemma {:induction false} ValuesMultiset<T>(p: seq<(Key, T)>, q: seq<(Key, T)>)
    requires multiset(p) == multiset(q)
    ensures multiset(Values(p)) == multiset(Values(q))
    decreases |p|
  {
    if p == [] {
      assert |q| == |multiset(q)| == 0;
    } else {
      var x := p[|p| - 1];
      var init := p[..|p| - 1];
      assert p == init + [x];
      assert x in multiset(q);
      var j :| 0 <= j < |q| && q[j] == x;
      RemoveAt(q, j);
      assert multiset(init) == multiset(p) - multiset{x} == multiset(q[..j] + q[j + 1..]);
      ValuesMultiset(init, q[..j] + q[j + 1..]);
      ValuesSnoc(init, x);
    }
  }

  /** The values of a sequence grown by one pair. */
  lemma ValuesSnoc<T>(init: seq<(Key, T)>, x: (Key, T))
    ensures multiset(Values(init + [x])) == multiset(Values(init)) + multiset{x.1}
  {
    assert Values(init + [x]) == Values(init) + [x.1];
  }

  /** A stable sort: the input sorted by the comparator, with tied elements
      in their input order. `order[k]` is the input position of output
      element k; it is a one-to-one map of positions. */
  method StableSort<T(!new)>(s: seq<T>, cmp: (T, T) -> int) returns (r: seq<T>, ghost order: seq<nat>)
    requires Comparator(cmp)
    ensures SortedBy(r, cmp)
    ensures multiset(r) == multiset(s)
    ensures |order| == |r| == |s|
    ensures forall k :: 0 <= k < |r| ==> order[k] < |s| && r[k] == s[order[k]]
    ensures forall k, l :: 0 <= k < l < |r| ==> order[k] != order[l]
    ensures forall k, l :: 0 <= k < l < |r| && Tied(cmp, r[k], r[l]) ==> order[k] < order[l]
  {
    ByPositionComparator(cmp);
    var out := SortCopy(List(s), ByPosition(cmp));
    StableSortOrder(s, out, cmp);
    r := Values(out);
    order := Positions(out);
  }

  /** Sorts a copy of `t` in a fresh array and returns its contents. */
  method SortCopy<T(!new)>(t: seq<T>, cmp: (T, T) -> int) returns (out: seq<T>)
    requires Comparator(cmp)
    ensures SortedBy(out, cmp)
    ensures multiset(out) == multiset(t)
  {
    var buf := new T[|t|](i requires 0 <= i < |t| => t[i]);
    assert buf[..] == t;
    InsertionSort(buf, cmp);
    out := buf[..];
  }

  /** The input positions carried by the keys of a sorted list. */
  function Positions<T>(out: seq<(Key, T)>): (ps: seq<nat>)
    ensures |ps| == |out|
    ensures forall k :: 0 <= k < |out| ==> ps[k] == Pos(out[k].0)
  {
    seq(|out|, k requires 0 <= k < |out| => Pos(out[k].0))
  }

  /** What sorting the tagged input gives: each output element comes from
      its tag's input position, tags are never repeated, tied elements are
      in tag order, and the elements are a permutation of the input. */
  lemma StableSortOrder<T(!new)>(s: seq<T>, out: seq<(Key, T)>, cmp: (T, T) -> int)
    requires multiset(out) == multiset(List(s))
    requires SortedBy(out, ByPosition(cmp))
    ensures SortedBy(Values(out), cmp)
    ensures multiset(Values(out)) == multiset(s)
    ensures |Positions(out)| == |Values(out)| == |s|
    ensures forall k :: 0 <= k < |Values(out)| ==> Positions(out)[k] < |s| && Values(out)[k] == s[Positions(out)[k]]
    ensures forall k, l :: 0 <= k < l < |Values(out)| ==> Positions(out)[k] != Positions(out)[l]
    ensures forall k, l :: 0 <= k < l < |Values(out)| && Tied(cmp, Values(out)[k], Values(out)[l]) ==> Positions(out)[k] < Positions(out)[l]
  {
    ValuesMultiset(out, List(s));
    TagsFromInput(s, out);
    TagsDistinct(s, out);
    TagsOrdered(out, cmp);
  }

  /** Every sorted element is an input element under its input position. */
  lemma TagsFromInput<T>(s: seq<T>, out: seq<(Key, T)>)
    requires multiset(out) == multiset(List(s))
    ensures |out| == |s|
    ensures forall k :: 0 <= k < |out| ==> Pos(out[k].0) < |s| && out[k] == (I(Pos(out[k].0)), s[Pos(out[k].0)])
  {
    var t := List(s);
    assert |out| == |multiset(out)| == |multiset(t)| == |s|;
    forall k | 0 <= k < |out| ensures Pos(out[k].0) < |s| && out[k] == (I(Pos(out[k].0)), s[Pos(out[k].0)]) {
      assert out[k] in multiset(t);
      var i :| 0 <= i < |t| && t[i] == out[k];
    }
  }

  /** No input position appears twice among the sorted elements. */
  lemma TagsDistinct<T>(s: seq<T>, out: seq<(Key, T)>)
    requires multiset(out) == multiset(List(s))
    requires forall k :: 0 <= k < |out| ==> Pos(out[k].0) < |s| && out[k] == (I(Pos(out[k].0)), s[Pos(out[k].0)])
    ensures forall k, l :: 0 <= k < l < |out| ==> Pos(out[k].0) != Pos(out[l].0)
  {
    var t := List(s);
    forall k, l | 0 <= k < l < |out| ensures Pos(out[k].0) != Pos(out[l].0) {
      if Pos(out[k].0) == Pos(out[l].0) {
        CountTwice(out, k, l);
        CountAtMostOne(t, out[k]);
        assert false;
      }
    }
  }

  /** Sorted by the tie-breaking comparator: sorted by `cmp`, and tied
      elements in position order. */
  lemma TagsOrdered<T>(out: seq<(Key, T)>, cmp: (T, T) -> int)
    requires SortedBy(out, ByPosition(cmp))
    requires forall k, l :: 0 <= k < l < |out| ==> Pos(out[k].0) != Pos(out[l].0)
    ensures forall k, l :: 0 <= k < l < |out| ==> cmp(out[k].1, out[l].1) <= 0
    ensures forall k, l :: 0 <= k < l < |out| && Tied(cmp, out[k].1, out[l].1) ==> Pos(out[k].0) < Pos(out[l].0)
  {
    forall k, l | 0 <= k < l < |out|
      ensures cmp(out[k].1, out[l].1) <= 0
      ensures Tied(cmp, out[k].1, out[l].1) ==> Pos(out[k].0) < Pos(out[l].0)
    {
      assert ByPosition(cmp)(out[k], out[l]) <= 0;
    }
  }
}
