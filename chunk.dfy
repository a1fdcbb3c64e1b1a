/** `iterable_chunk(size, preserve_keys)`: the source is consumed item by
    item into a buffer; every `size` items the buffer is yielded and emptied,
    and a shorter last buffer is yielded at the end. The chunks are keyed
    0, 1, 2, ... */
module Chunk {
  import opened PhpArray

  /** One buffer after the items of `piece` went into it: their values as a
      list, or, keeping keys, each pair assigned in turn (a repeated key
      keeps its first position and the later value). */
  function Buffer<V>(piece: seq<(Key, V)>, preserve: bool): (b: seq<(Key, V)>)
  {
    if preserve then Collect(piece) else List(Values(piece))
  }

  /** The chunks of a source: consecutive runs of `size` items, buffered. */
  function Chunked<V>(a: seq<(Key, V)>, size: nat, preserve: bool): (out: seq<(Key, seq<(Key, V)>)>)
    requires size > 0
    ensures IsList(out) && |out| == |Pieces(a, size)|
  {
    var ps := Pieces(a, size);
    List(seq(|ps|, i requires 0 <= i < |ps| => Buffer(ps[i], preserve)))
  }

  /** A zero or negative size is rejected before any item is read. */
  method IterableChunk<V>(size: int, preserve: bool, a: seq<(Key, V)>) returns (r: Result<seq<(Key, seq<(Key, V)>)>>)
    ensures r.Err? <==> size <= 0
    ensures r.Err? ==> r.error == InvalidArgument
    ensures r.Ok? ==> r.value == Chunked(a, size, preserve)
  {
    if size <= 0 {
      return Err(InvalidArgument);
    }
    var out: seq<(Key, seq<(Key, V)>)> := [];
    var buffer: seq<(Key, V)> := [];
    var count := 0;
    var i := 0;
    ghost var start := 0;
    ghost var full: nat := 0;
    ghost var run: seq<(Key, V)> := [];
    while i < |a|
      invariant 0 <= start <= i <= |a| && count == i - start < size
      invariant start == full * size
      invariant run == a[start..i]
      invariant preserve ==> buffer == Collect(run)
      invariant !preserve ==> buffer == List(Values(run))
      invariant out == Chunked(a[..start], size, preserve)
    {
      buffer := Push(buffer, a[i], preserve, run);
      run := run + [a[i]];
      count := count + 1;
      i := i + 1;
      if count == size {
        out := Emit(out, buffer, a[..start], run, a[..i], size, full, preserve);
        buffer := [];
        run := [];
        count := 0;
        start := i;
        full := full + 1;
      }
    }
    if count > 0 {
      assert a[..start] + run == a;
      out := Emit(out, buffer, a[..start], run, a, size, full, preserve);
    } else {
      assert a[..start] == a;
    }
    return Ok(out);
  }

  /** One item goes into the buffer: under its own key when keeping keys,
      otherwise under the next list index. */
  method Push<V>(buffer: seq<(Key, V)>, x: (Key, V), preserve: bool, ghost piece: seq<(Key, V)>) returns (b: seq<(Key, V)>)
    requires buffer == Buffer(piece, preserve)
    ensures b == Buffer(piece + [x], preserve)
  {
    BufferStep(piece, x, preserve);
    if preserve {
      b := Put(buffer, x.0, x.1);
    } else {
      b := buffer + [(I(|buffer|), x.1)];
    }
  }

  /** A full buffer, or the last one, is yielded as the next chunk. */
  method Emit<V>(out: seq<(Key, seq<(Key, V)>)>, buffer: seq<(Key, V)>, ghost xs: seq<(Key, V)>, ghost p: seq<(Key, V)>,
                 ghost ys: seq<(Key, V)>, ghost size: nat, ghost m: nat, ghost preserve: bool)
    returns (out': seq<(Key, seq<(Key, V)>)>)
    requires size > 0 && |xs| == m * size && 1 <= |p| <= size && ys == xs + p
    requires out == Chunked(xs, size, preserve) && buffer == Buffer(p, preserve)
    ensures out' == Chunked(ys, size, preserve)
    ensures |p| == size ==> |ys| == (m + 1) * size
  {
    NextChunk(xs, p, ys, size, m, preserve);
    out' := out + [(I(|out|), buffer)];
  }

  /** Adding one more item to a buffer. */
  lemma BufferStep<V>(piece: seq<(Key, V)>, x: (Key, V), preserve: bool)
    ensures Buffer(piece + [x], preserve) ==
      if preserve then Put(Buffer(piece, preserve), x.0, x.1) else Buffer(piece, preserve) + [(I(|piece|), x.1)]
  {
    assert (piece + [x])[..|piece|] == piece;
    assert Values(piece + [x]) == Values(piece) + [x.1];
  }

  /** After m full pieces, a run of 1 to `size` more items is one more piece. */
  lemma {:induction false} PiecesSnoc<T>(xs: seq<T>, p: seq<T>, size: nat, m: nat)
    requires size > 0 && |xs| == m * size && 1 <= |p| <= size
    ensures Pieces(xs + p, size) == Pieces(xs, size) + [p]
    decreases m
  {
    if m == 0 {
      assert xs + p == p;
    } else {
      assert |xs| == size + (m - 1) * size;
      assert (xs + p)[..size] == xs[..size];
      assert (xs + p)[size..] == xs[size..] + p;
      PiecesSnoc(xs[size..], p, size, m - 1);
      if |xs| == size {
        assert xs[size..] == [] && xs[..size] == xs;
      }
    }
  }

  /** After m full chunks, a run of 1 to `size` more items is one more
      chunk; the next run starts at (m + 1) * size. */
  lemma NextChunk<V>(xs: seq<(Key, V)>, p: seq<(Key, V)>, ys: seq<(Key, V)>, size: nat, m: nat, preserve: bool)
    requires size > 0 && |xs| == m * size && 1 <= |p| <= size && ys == xs + p
    ensures Chunked(ys, size, preserve) == Chunked(xs, size, preserve) + [(I(|Chunked(xs, size, preserve)|), Buffer(p, preserve))]
    ensures |p| == size ==> |ys| == (m + 1) * size
  {
    PiecesSnoc(xs, p, size, m);
    assert (m + 1) * size == m * size + size;
  }

  /** Every chunk but the last holds `size` items, the last 1 to `size`;
      the items of the chunks, in order, are the source; an empty source
      gives no chunk. */
  lemma ChunkedShape<V>(a: seq<(Key, V)>, size: nat, preserve: bool)
    requires size > 0
    ensures var out := Chunked(a, size, preserve);
      var ps := Pieces(a, size);
      && IsList(out) && |out| == |ps|
      && Concat(ps) == a
      && (out == [] <==> a == [])
      && (forall i :: 0 <= i < |ps| - 1 ==> |ps[i]| == size)
      && (ps != [] ==> 1 <= |ps[|ps| - 1]| <= size)
  {
    PiecesSpec(a, size);
  }

  /** Chunk i holds the items at positions i*size up to i*size + size: their
      values as a list, or, keeping keys, a map whose keys are the run's
      keys in first-seen order. */
  lemma ChunkAt<V>(a: seq<(Key, V)>, size: nat, preserve: bool, i: nat)
    requires size > 0 && i < |Chunked(a, size, preserve)|
    ensures i * size < |a|
    ensures var run := a[i * size..if i * size + size <= |a| then i * size + size else |a|];
      var chunk := Chunked(a, size, preserve)[i].1;
      && (!preserve ==> IsList(chunk) && Values(chunk) == Values(run))
      && (preserve ==> IsMap(chunk) && Keys(chunk) == Dedup(Keys(run)))
  {
    PiecesAt(a, size, i);
    CollectSpec(Pieces(a, size)[i]);
  }

  /** Keeping keys, a key given twice inside one chunk keeps the value given
      last. */
  lemma ChunkKeepsLast<V>(a: seq<(Key, V)>, size: nat, i: nat, k: Key, j: nat)
    requires size > 0 && i < |Pieces(a, size)| && LastWith(Pieces(a, size)[i], k, j)
    ensures Get(Chunked(a, size, true)[i].1, k) == Some(Pieces(a, size)[i][j].1)
  {
    CollectSpec(Pieces(a, size)[i]);
  }

  /** Four items, the first two under the same key, in chunks of two:
      chunk 0 keeps only the later of the two, chunk 1 holds the other two. */
  lemma RepeatedKeyExample()
    ensures Chunked([(S("a"), 1), (S("a"), 2), (S("b"), 3), (S("c"), 4)], 2, true)
      == [(I(0), [(S("a"), 2)]), (I(1), [(S("b"), 3), (S("c"), 4)])]
  {
    var a := [(S("a"), 1), (S("a"), 2), (S("b"), 3), (S("c"), 4)];
    var p0 := [(S("a"), 1), (S("a"), 2)];
    var p1 := [(S("b"), 3), (S("c"), 4)];
    assert a[..2] == p0 && a[2..] == p1;
    assert Pieces(a, 2) == [p0, p1];
    assert p0[..1] == [(S("a"), 1)] && p1[..1] == [(S("b"), 3)];
    assert Collect([(S("a"), 1)]) == [(S("a"), 1)];
    assert Collect([(S("b"), 3)]) == [(S("b"), 3)];
    assert Collect(p0) == [(S("a"), 2)];
    assert Collect(p1) == p1;
  }
}
