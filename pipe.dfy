/** The factories of src/pipe.php: each fixes its configuration and returns a
    closure over one PHP array primitive. A closure applied to an input is
    modelled as a function of (configuration, input); `explode` lives with
    the other string operations. */
module Pipe {
  import opened PhpArray
  import opened Sorting

  // ---------------------------------------------------------------- any/all

  /** `array_any`: some pair satisfies the predicate, which is handed
      (value, key). */
  function ArrayAny<V>(p: (V, Key) -> bool, a: seq<(Key, V)>): (r: bool)
    ensures r <==> exists i :: 0 <= i < |a| && p(a[i].1, a[i].0)
    decreases |a|
  {
    if a == [] then false
    else if p(a[0].1, a[0].0) then true
    else
      var rest := ArrayAny(p, a[1..]);
      assert forall i :: 1 <= i < |a| ==> a[i] == a[1..][i - 1];
      rest
  }

  /** `array_all`: every pair satisfies the predicate. */
  function ArrayAll<V>(p: (V, Key) -> bool, a: seq<(Key, V)>): (r: bool)
    ensures r <==> forall i :: 0 <= i < |a| ==> p(a[i].1, a[i].0)
    decreases |a|
  {
    if a == [] then true
    else if !p(a[0].1, a[0].0) then false
    else
      var rest := ArrayAll(p, a[1..]);
      assert forall i :: 1 <= i < |a| ==> a[i] == a[1..][i - 1];
      rest
  }

  /** Keys handed to the predicate, in order, by a scan that returns as soon
      as the predicate answers `stop` (true for any, false for all). */
  function Probed<V>(p: (V, Key) -> bool, a: seq<(Key, V)>, stop: bool): seq<Key>
    decreases |a|
  {
    if a == [] then []
    else if p(a[0].1, a[0].0) == stop then [a[0].0]
    else [a[0].0] + Probed(p, a[1..], stop)
  }

  /** When the predicate never answers `stop` it is handed every key, in
      array order (none at all on an empty array). */
  lemma {:induction false} ProbedAll<V>(p: (V, Key) -> bool, a: seq<(Key, V)>, stop: bool)
    requires forall i :: 0 <= i < |a| ==> p(a[i].1, a[i].0) != stop
    ensures Probed(p, a, stop) == Keys(a)
    decreases |a|
  {
    if a != [] {
      assert forall i :: 0 <= i < |a| - 1 ==> a[1..][i] == a[i + 1];
      ProbedAll(p, a[1..], stop);
      assert Keys(a) == [a[0].0] + Keys(a[1..]);
    }
  }

  /** When pair i is the first on which the predicate answers `stop`, it is
      handed the keys up to and including key i, and no further. */
  lemma {:induction false} ProbedUpTo<V>(p: (V, Key) -> bool, a: seq<(Key, V)>, stop: bool, i: nat)
    requires i < |a| && p(a[i].1, a[i].0) == stop
    requires forall j :: 0 <= j < i ==> p(a[j].1, a[j].0) != stop
    ensures Probed(p, a, stop) == Keys(a)[..i + 1]
    decreases i
  {
    if i > 0 {
      assert a[1..][i - 1] == a[i];
      assert forall j :: 0 <= j < i - 1 ==> a[1..][j] == a[j + 1];
      ProbedUpTo(p, a[1..], stop, i - 1);
      assert Keys(a)[..i + 1] == [a[0].0] + Keys(a[1..])[..i];
    }
  }

  /** The scan stops on the pair that decides: it probes between one key
      and all of them, and the answer of `array_any` (stop = true) or
      `array_all` (stop = false) is the predicate's answer on the last
      pair probed. */
  lemma {:induction false} ProbedDecides<V>(p: (V, Key) -> bool, a: seq<(Key, V)>, stop: bool)
    requires a != []
    ensures 1 <= |Probed(p, a, stop)| <= |a|
    ensures stop ==> (ArrayAny(p, a) <==> p(a[|Probed(p, a, stop)| - 1].1, a[|Probed(p, a, stop)| - 1].0))
    ensures !stop ==> (ArrayAll(p, a) <==> p(a[|Probed(p, a, stop)| - 1].1, a[|Probed(p, a, stop)| - 1].0))
    decreases |a|
  {
    if p(a[0].1, a[0].0) != stop && |a| > 1 {
      var b := a[1..];
      ProbedDecides(p, b, stop);
      var n := |Probed(p, b, stop)|;
      assert |Probed(p, a, stop)| == n + 1;
      assert a[n] == b[n - 1];
      if stop {
        assert ArrayAny(p, a) == ArrayAny(p, b);
      } else {
        assert ArrayAll(p, a) == ArrayAll(p, b);
      }
    }
  }

  /** `array_all` is the negation of `array_any` on the negated predicate. */
  lemma AllIsNotAnyNot<V>(p: (V, Key) -> bool, a: seq<(Key, V)>)
    ensures ArrayAll(p, a) == !ArrayAny((v, k) => !p(v, k), a)
  {
  }

  // ------------------------------------------------------------------ chunk

  /** `array_chunk`: a list of consecutive pieces of `length` pairs; each
      piece is renumbered 0.. unless `preserve` is set. PHP rejects a length
      below 1 with a ValueError when the closure is applied. */
  function ArrayChunk<V>(length: int, preserve: bool, a: seq<(Key, V)>): (r: Result<seq<(Key, seq<(Key, V)>)>>)
    ensures r.Err? <==> length < 1
    ensures r.Err? ==> r.error == ValueError
    ensures r.Ok? ==> IsList(r.value)
  {
    if length < 1 then Err(ValueError)
    else
      var ps := Pieces(a, length);
      Ok(List(seq(|ps|, i requires 0 <= i < |ps| => if preserve then ps[i] else List(Values(ps[i])))))
  }

  /** Only the last piece is shorter than `length`, an empty array gives
      no pieces, and with keys kept the pieces laid end to end are the
      array. */
  lemma ArrayChunkShape<V>(length: int, preserve: bool, a: seq<(Key, V)>)
    requires length >= 1
    ensures var cs := Values(ArrayChunk(length, preserve, a).value);
      && (cs == [] <==> a == [])
      && (forall i :: 0 <= i < |cs| - 1 ==> |cs[i]| == length)
      && (cs != [] ==> 1 <= |cs[|cs| - 1]| <= length)
      && (preserve ==> Concat(cs) == a)
  {
    var ps := Pieces(a, length);
    var cs := Values(ArrayChunk(length, preserve, a).value);
    PiecesSpec(a, length);
    if preserve {
      assert cs == ps;
    }
  }

  /** Piece i is the run of pairs from i * length, at most `length` long,
      with its keys kept or renumbered 0, 1, ... */
  lemma ArrayChunkAt<V>(length: int, preserve: bool, a: seq<(Key, V)>, i: nat)
    requires length >= 1 && i < |ArrayChunk(length, preserve, a).value|
    ensures i * length < |a|
    ensures var hi := if i * length + length <= |a| then i * length + length else |a|;
      var c := ArrayChunk(length, preserve, a).value[i];
      c.0 == I(i) && c.1 == if preserve then a[i * length..hi] else List(Values(a[i * length..hi]))
  {
    PiecesAt(a, length, i);
  }

  // -------------------------------------------------------------------- map

  /** `array_map` with one array: every key kept, in place, with the mapped
      value; the mapper runs once per pair. */
  function ArrayMap<V, W>(f: V -> W, a: seq<(Key, V)>): (r: seq<(Key, W)>)
    ensures Keys(r) == Keys(a)
    ensures forall i :: 0 <= i < |a| ==> r[i].1 == f(a[i].1)
    decreases |a|
  {
    if a == [] then []
    else [(a[0].0, f(a[0].1))] + ArrayMap(f, a[1..])
  }

  /** Mapping twice is mapping by the composition. */
  lemma ArrayMapCompose<U, V, W>(f: U -> V, g: V -> W, a: seq<(Key, U)>)
    ensures ArrayMap(g, ArrayMap(f, a)) == ArrayMap(x => g(f(x)), a)
  {
    var l := ArrayMap(g, ArrayMap(f, a));
    var r := ArrayMap(x => g(f(x)), a);
    assert Keys(l) == Keys(r);
    assert forall i :: 0 <= i < |l| ==> l[i] == (Keys(l)[i], l[i].1);
  }

  // ------------------------------------------------------------------ slice

  /** The run [lo, hi) that `array_slice` takes from n elements: an offset
      past the end gives nothing; a negative offset counts from the end and
      stops at the start; a missing length runs to the end; a negative
      length stops that many elements before the end. */
  function SliceBounds(n: nat, offset: int, length: Option<int>): (b: (nat, nat))
    ensures b.0 <= b.1 <= n
  {
    if offset > n then (n, n)
    else
      var lo: nat := if offset >= 0 then offset else if n + offset < 0 then 0 else n + offset;
      var len := match length
        case None => n - lo
        case Some(l) => if l < 0 then n - lo + l else if lo + l > n then n - lo else l;
      if len <= 0 then (lo, lo) else (lo, lo + len)
  }

  /** `array_slice($a, $offset, $length, $preserve_keys)`. */
  function ArraySlice<V>(offset: int, length: Option<int>, preserve: bool, a: seq<(Key, V)>): (r: seq<(Key, V)>)
    ensures var b := SliceBounds(|a|, offset, length);
      Values(r) == Values(a)[b.0..b.1]
    ensures preserve ==> var b := SliceBounds(|a|, offset, length); r == a[b.0..b.1]
  {
    var b := SliceBounds(|a|, offset, length);
    var run := a[b.0..b.1];
    assert Values(run) == Values(a)[b.0..b.1];
    RenumberValues(run, 0);
    if preserve then run else Renumber(run, 0)
  }

  /** Without `preserve_keys` the string keys of the run survive and its
      integer keys become 0, 1, 2, ... */
  lemma ArraySliceKeys<V>(offset: int, length: Option<int>, a: seq<(Key, V)>)
    ensures var b := SliceBounds(|a|, offset, length);
      var r := ArraySlice(offset, length, false, a);
      forall i :: 0 <= i < |r| ==>
        r[i].0 == if a[b.0 + i].0.S? then a[b.0 + i].0 else I(IntKeysBefore(a[b.0..b.1], i))
  {
    var b := SliceBounds(|a|, offset, length);
    RenumberKeys(a[b.0..b.1], 0);
  }

  /** A non-negative offset and length take elements offset .. offset+length,
      cut off at the end of the array. */
  lemma SliceForward(n: nat, offset: nat, length: nat)
    ensures SliceBounds(n, offset, Some(length)) ==
      if offset >= n then (n, n)
      else (offset, if offset + length <= n then offset + length else n)
  {
  }

  /** A missing length runs to the end. */
  lemma SliceToEnd(n: nat, offset: int)
    ensures SliceBounds(n, offset, None).1 == n
  {
  }

  /** A negative offset -k counts k elements back from the end. */
  lemma SliceNegativeOffset<V>(k: int, length: Option<int>, preserve: bool, a: seq<(Key, V)>)
    requires 0 < k <= |a|
    ensures ArraySlice(-k, length, preserve, a) == ArraySlice(|a| - k, length, preserve, a)
  {
    assert SliceBounds(|a|, -k, length) == SliceBounds(|a|, |a| - k, length);
  }

  /** A negative offset reaching past the start is cut off at the start. */
  lemma SliceBeforeStart(n: nat, offset: int, length: Option<int>)
    requires offset < 0 && n + offset < 0
    ensures SliceBounds(n, offset, length) == SliceBounds(n, 0, length)
  {
  }

  // ------------------------------------------------------------------- sort

  /** `usort`: the values in comparator order, keyed 0.. PHP sorts the
      closure's own by-value copy, so the caller's array is untouched. The
      sort is stable (PHP 8): `order[k]` is the input position of the k-th
      value, and values the comparator ties keep their input order. */
  method Usort<V(!new)>(a: seq<(Key, V)>, cmp: (V, V) -> int) returns (r: seq<(Key, V)>, ghost order: seq<nat>)
    requires Comparator(cmp)
    ensures IsList(r)
    ensures SortedBy(Values(r), cmp)
    ensures multiset(Values(r)) == multiset(Values(a))
    ensures |order| == |r| == |a|
    ensures forall k :: 0 <= k < |r| ==> order[k] < |a| && r[k].1 == a[order[k]].1
    ensures forall k, l :: 0 <= k < l < |r| ==> order[k] != order[l]
    ensures forall k, l :: 0 <= k < l < |r| && Tied(cmp, r[k].1, r[l].1) ==> order[k] < order[l]
  {
    var vs;
    vs, order := StableSort(Values(a), cmp);
    r := List(vs);
  }

  /** `uasort`: the pairs in comparator order of their values, each key
      travelling with its value; the caller's array is untouched. Stable
      like `usort`: pairs with tied values keep their input order. */
  method Uasort<V(!new)>(a: seq<(Key, V)>, cmp: (V, V) -> int) returns (r: seq<(Key, V)>, ghost order: seq<nat>)
    requires Comparator(cmp)
    ensures SortedBy(Values(r), cmp)
    ensures multiset(r) == multiset(a)
    ensures |order| == |r| == |a|
    ensures forall k :: 0 <= k < |r| ==> order[k] < |a| && r[k] == a[order[k]]
    ensures forall k, l :: 0 <= k < l < |r| ==> order[k] != order[l]
    ensures forall k, l :: 0 <= k < l < |r| && Tied(cmp, r[k].1, r[l].1) ==> order[k] < order[l]
  {
    var byValue := (x: (Key, V), y: (Key, V)) => cmp(x.1, y.1);
    ByValueComparator(cmp);
    r, order := StableSort(a, byValue);
    assert forall k :: 0 <= k < |r| ==> Values(r)[k] == r[k].1;
  }

  /** Comparing pairs by their values inherits the comparator's laws. */
  lemma ByValueComparator<V(!new)>(cmp: (V, V) -> int)
    requires Comparator(cmp)
    ensures Comparator((x: (Key, V), y: (Key, V)) => cmp(x.1, y.1))
  {
    var byValue := (x: (Key, V), y: (Key, V)) => cmp(x.1, y.1);
    forall x: (Key, V), y: (Key, V) ensures byValue(x, y) <= 0 || byValue(y, x) <= 0 {
      assert cmp(x.1, y.1) <= 0 || cmp(y.1, x.1) <= 0;
    }
    forall x: (Key, V), y: (Key, V), z: (Key, V) | byValue(x, y) <= 0 && byValue(y, z) <= 0
      ensures byValue(x, z) <= 0
    {
      assert cmp(x.1, y.1) <= 0 && cmp(y.1, z.1) <= 0;
    }
  }
}
