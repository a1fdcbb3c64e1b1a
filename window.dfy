/** `iterable_window(size, circular)`: sliding windows over the values of an
    iterable, each window a list, the windows keyed 0, 1, 2, ... */
module Window {
  import opened PhpArray

  /** Windows of `size` consecutive values, starting at each position that
      still has `size` values ahead of it. */
  function Slide<T>(vs: seq<T>, size: nat): (ws: seq<seq<T>>)
    requires size > 0
    ensures |ws| == if |vs| >= size then |vs| - size + 1 else 0
    ensures forall i :: 0 <= i < |ws| ==> ws[i] == vs[i..i + size]
    decreases |vs|
  {
    if |vs| < size then []
    else
      var rest := Slide(vs[1..], size);
      assert forall i :: 0 <= i < |rest| ==> rest[i] == vs[i + 1..i + 1 + size];
      [vs[..size]] + rest
  }

  /** Circular windows: the first size-1 values are reused after the last,
      so every position starts a window; fewer than `size` values give none. */
  function Circular<T>(vs: seq<T>, size: nat): (ws: seq<seq<T>>)
    requires size > 0
    ensures |ws| == if |vs| < size then 0 else |vs|
    ensures forall i :: 0 <= i < |ws| ==> |ws[i]| == size
  {
    if |vs| < size then [] else Slide(vs + vs[..size - 1], size)
  }

  /** The factory rejects a size below 1 before seeing any input; the
      closure discards the input keys. */
  function IterableWindow<V>(size: int, circular: bool): (r: Result<seq<(Key, V)> -> seq<(Key, seq<(Key, V)>)>>)
    ensures r.Err? <==> size < 1
    ensures r.Err? ==> r.error == InvalidArgument
  {
    if size < 1 then Err(InvalidArgument)
    else Ok((a: seq<(Key, V)>) =>
      var ws := if circular then Circular(Values(a), size) else Slide(Values(a), size);
      List(seq(|ws|, i requires 0 <= i < |ws| => List(ws[i]))))
  }

  /** Window i of the closure's output, under key i, is the list of the
      values at positions i .. i+size-1; there are n-size+1 of them, and
      none when n < size. */
  lemma WindowSpec<V>(size: int, a: seq<(Key, V)>)
    requires size >= 1
    ensures var out := IterableWindow<V>(size, false).value(a);
      && |out| == (if |a| >= size then |a| - size + 1 else 0)
      && forall i :: 0 <= i < |out| ==>
           out[i].0 == I(i) && Values(out[i].1) == Values(a)[i..i + size] && IsList(out[i].1)
  {
    var ws := Slide(Values(a), size);
    var out := IterableWindow<V>(size, false).value(a);
    assert out == List(seq(|ws|, i requires 0 <= i < |ws| => List(ws[i])));
    forall i | 0 <= i < |out|
      ensures out[i].0 == I(i) && Values(out[i].1) == Values(a)[i..i + size] && IsList(out[i].1)
    {
      assert out[i].1 == List(ws[i]);
    }
  }

  /** Circular windows: exactly n of them when n >= size (none otherwise),
      window i holding the values at positions (i + j) mod n. */
  lemma CircularSpec<T>(vs: seq<T>, size: nat)
    requires size > 0
    ensures |vs| < size ==> Circular(vs, size) == []
    ensures |vs| >= size ==> |Circular(vs, size)| == |vs|
    ensures |vs| >= size ==> forall i, j :: 0 <= i < |vs| && 0 <= j < size ==>
      |Circular(vs, size)[i]| == size && Circular(vs, size)[i][j] == vs[(i + j) % |vs|]
  {
    if |vs| >= size {
      forall i, j | 0 <= i < |vs| && 0 <= j < size
        ensures |Circular(vs, size)[i]| == size && Circular(vs, size)[i][j] == vs[(i + j) % |vs|]
      {
        CircularAt(vs, size, i, j);
      }
    }
  }

  lemma CircularAt<T>(vs: seq<T>, size: nat, i: nat, j: nat)
    requires 0 < size <= |vs| && i < |vs| && j < size
    ensures |Circular(vs, size)[i]| == size
    ensures Circular(vs, size)[i][j] == vs[(i + j) % |vs|]
  {
    var ext := vs + vs[..size - 1];
    assert Circular(vs, size)[i] == ext[i..i + size];
    var n := |vs|;
    if i + j < n {
      assert ext[i + j] == vs[i + j];
      ModBelow(i + j, n);
    } else {
      assert ext[i + j] == vs[i + j - n];
      ModWrap(i + j, n);
    }
  }

  lemma ModBelow(k: nat, n: nat)
    requires k < n
    ensures k % n == k
  {
  }

  lemma ModWrap(k: nat, n: nat)
    requires n <= k < 2 * n
    ensures k % n == k - n
  {
    assert k == 1 * n + (k - n);
  }

  /** The circular closure keys its windows 0 .. n-1, so collecting them
      overwrites nothing. */
  lemma CircularKeys<V>(size: int, a: seq<(Key, V)>)
    requires 1 <= size <= |a|
    ensures var out := IterableWindow<V>(size, true).value(a);
      && Keys(out) == Keys(List(Values(a)))
      && Collect(out) == out
  {
    var out := IterableWindow<V>(size, true).value(a);
    CircularSpec(Values(a), size);
    CollectOfMap(out);
  }

  /** With size 1 every value forms a window on its own, circular or not. */
  lemma SizeOne<T>(vs: seq<T>)
    ensures Circular(vs, 1) == Slide(vs, 1)
    ensures forall i :: 0 <= i < |Slide(vs, 1)| ==> Slide(vs, 1)[i] == [vs[i]]
  {
    assert vs + vs[..0] == vs;
  }

  /** The windows depend on the values alone: an array and a generator
      yielding the same values (under any keys) give the same output. */
  lemma KeysIgnored<V>(size: int, circular: bool, a: seq<(Key, V)>, b: seq<(Key, V)>)
    requires size >= 1 && Values(a) == Values(b)
    ensures IterableWindow<V>(size, circular).value(a) == IterableWindow<V>(size, circular).value(b)
  {
  }
}
