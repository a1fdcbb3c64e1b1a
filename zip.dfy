/** `iterable_zip(...rights)` walks the left source and one cursor per right
    source in lockstep; `zip_map(callback)` is `array_map` over several
    arrays, padding the shorter ones with null. */
module Zip {
  import opened PhpArray

  /** The length of the shortest of the left source (n items) and the right
      sources. */
  function Shortest<V>(n: nat, rights: seq<seq<(Key, V)>>): (m: nat)
    ensures m <= n && forall r :: 0 <= r < |rights| ==> m <= |rights[r]|
    ensures m == n || exists r :: 0 <= r < |rights| && m == |rights[r]|
    decreases |rights|
  {
    if rights == [] then n
    else
      var rest := Shortest(n, rights[1..]);
      assert forall r :: 1 <= r < |rights| ==> rights[r] == rights[1..][r - 1];
      if |rights[0]| < rest then |rights[0]| else rest
  }

  /** `iterable_zip`: the i-th output, under the i-th left key, is the list
      [left value, value of right 1, value of right 2, ...]; the output ends
      as soon as the left source or any single right source runs out. */
  method IterableZip<V>(left: seq<(Key, V)>, rights: seq<seq<(Key, V)>>) returns (out: seq<(Key, seq<(Key, V)>)>)
    ensures |out| == Shortest(|left|, rights)
    ensures forall i :: 0 <= i < |out| ==>
      && out[i].0 == left[i].0
      && IsList(out[i].1)
      && |out[i].1| == |rights| + 1
      && out[i].1[0].1 == left[i].1
      && forall r :: 0 <= r < |rights| ==> out[i].1[r + 1].1 == rights[r][i].1
  {
    var cursor := new nat[|rights|](_ => 0);
    out := [];
    var i := 0;
    while i < |left|
      invariant 0 <= i <= |left| && i <= Shortest(|left|, rights)
      invariant forall r :: 0 <= r < cursor.Length ==> cursor[r] == i
      invariant |out| == i
      invariant forall j :: 0 <= j < i ==>
        && out[j].0 == left[j].0
        && IsList(out[j].1)
        && |out[j].1| == |rights| + 1
        && out[j].1[0].1 == left[j].1
        && forall r :: 0 <= r < |rights| ==> out[j].1[r + 1].1 == rights[r][j].1
    {
      var tuple, exhausted := Gather(left[i].1, rights, cursor, i);
      if exhausted {
        return;
      }
      forall q | 0 <= q < cursor.Length {
        cursor[q] := cursor[q] + 1;
      }
      out := out + [(left[i].0, List(tuple))];
      i := i + 1;
    }
  }

  /** One step of the zip: the left value followed by the current value of
      every right source, stopping at the first right source that has run
      out. */
  method Gather<V>(x: V, rights: seq<seq<(Key, V)>>, cursor: array<nat>, ghost i: nat) returns (tuple: seq<V>, exhausted: bool)
    requires cursor.Length == |rights| && forall r :: 0 <= r < cursor.Length ==> cursor[r] == i
    ensures exhausted <==> exists r :: 0 <= r < |rights| && |rights[r]| <= i
    ensures !exhausted ==> |tuple| == |rights| + 1 && tuple[0] == x
    ensures !exhausted ==> forall r :: 0 <= r < |rights| ==> tuple[r + 1] == rights[r][i].1
  {
    tuple := [x];
    var r := 0;
    while r < |rights|
      invariant 0 <= r <= |rights|
      invariant forall q :: 0 <= q < r ==> i < |rights[q]|
      invariant |tuple| == r + 1 && tuple[0] == x
      invariant forall q :: 0 <= q < r ==> tuple[q + 1] == rights[q][i].1
    {
      if cursor[r] >= |rights[r]| {
        return tuple, true;
      }
      tuple := tuple + [rights[r][cursor[r]].1];
      r := r + 1;
    }
    return tuple, false;
  }

  /** The length of the longest array. */
  function Longest<V>(arrays: seq<seq<(Key, V)>>): (m: nat)
    ensures forall r :: 0 <= r < |arrays| ==> |arrays[r]| <= m
    ensures m == 0 || exists r :: 0 <= r < |arrays| && m == |arrays[r]|
    decreases |arrays|
  {
    if arrays == [] then 0
    else
      var rest := Longest(arrays[1..]);
      assert forall r :: 1 <= r < |arrays| ==> arrays[r] == arrays[1..][r - 1];
      if |arrays[0]| > rest then |arrays[0]| else rest
  }

  /** Row i: the i-th value of every array, in argument order, or null for
      an array that has fewer than i+1 values; keys are ignored. */
  function Row<V>(arrays: seq<seq<(Key, V)>>, i: nat): (row: seq<Option<V>>)
    ensures |row| == |arrays|
    ensures forall r :: 0 <= r < |arrays| ==> (row[r].Some? <==> i < |arrays[r]|)
    ensures forall r :: 0 <= r < |arrays| && i < |arrays[r]| ==> row[r] == Some(arrays[r][i].1)
  {
    seq(|arrays|, r requires 0 <= r < |arrays| => if i < |arrays[r]| then Some(arrays[r][i].1) else None)
  }

  /** `zip_map(f)` over two or more arrays: f applied to each padded row,
      the results keyed 0, 1, ... The output is as long as the longest
      array, its i-th value is f of row i, and no arrays give an empty
      output. */
  function ZipMap<V, R>(f: seq<Option<V>> -> R, arrays: seq<seq<(Key, V)>>): (out: seq<(Key, R)>)
    ensures IsList(out)
    ensures |out| == Longest(arrays)
    ensures forall r :: 0 <= r < |arrays| ==> |arrays[r]| <= |out|
    ensures forall i :: 0 <= i < |out| ==> out[i].1 == f(Row(arrays, i))
    ensures arrays == [] ==> out == []
  {
    List(seq(Longest(arrays), i requires 0 <= i < Longest(arrays) => f(Row(arrays, i))))
  }

  /** `zip_map(null)`: each padded row itself, as a list with one cell per
      array. */
  function ZipMapNull<V>(arrays: seq<seq<(Key, V)>>): (out: seq<(Key, seq<(Key, Option<V>)>)>)
    ensures IsList(out) && |out| == Longest(arrays)
    ensures forall i :: 0 <= i < |out| ==> IsList(out[i].1) && |out[i].1| == |arrays|
  {
    ZipMap(List, arrays)
  }

  /** Where every array still has a value, the null-callback row holds them
      all; an array that ran out contributes null. */
  lemma ZipMapNullCells<V>(arrays: seq<seq<(Key, V)>>, i: nat, r: nat)
    requires i < Longest(arrays) && r < |arrays|
    ensures |ZipMapNull(arrays)[i].1| == |arrays|
    ensures ZipMapNull(arrays)[i].1[r] == (I(r), if i < |arrays[r]| then Some(arrays[r][i].1) else None)
  {
    var row := Row(arrays, i);
    assert ZipMapNull(arrays)[i].1 == List(row);
    assert List(row)[r] == (I(r), row[r]);
  }
}
