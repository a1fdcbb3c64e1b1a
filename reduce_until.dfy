/** `array_reduce_until(reducer, until, initial)`: a left fold that, after
    each reducer step, asks `until` about the new carry and stops at the
    first yes, returning [carry, key, value]; when `until` never says yes it
    returns [full fold, null, null]. */
module ReduceUntil {
  import opened PhpArray

  /** One callback invocation, with the (key, value) it was given and the
      carry after the reducer step. */
  datatype Call<C, V> = Reduce(k: Key, v: V, carry: C) | Until(k: Key, v: V, carry: C)

  /** The three-element result [carry, key, value]; null is None. */
  datatype Outcome<C, V> = Outcome(carry: C, key: Option<Key>, value: Option<V>)

  /** The calls made for the pairs of `a`, when none of them stopped the
      fold: a reducer call and then an `until` call per pair, in order. */
  function Steps<C, V>(f: (C, V, Key) -> C, init: C, a: seq<(Key, V)>): (calls: seq<Call<C, V>>)
    ensures |calls| == 2 * |a|
    decreases |a|
  {
    if a == [] then []
    else
      var last := a[|a| - 1];
      var c := FoldLeft(f, init, a);
      Steps(f, init, a[..|a| - 1]) + [Reduce(last.0, last.1, c), Until(last.0, last.1, c)]
  }

  /** `until` holds after the reducer step on pair i. */
  ghost predicate StopsAt<C, V>(f: (C, V, Key) -> C, u: (C, V, Key) -> bool, init: C, a: seq<(Key, V)>, i: int)
    requires 0 <= i < |a|
  {
    u(FoldLeft(f, init, a[..i + 1]), a[i].1, a[i].0)
  }

  method ArrayReduceUntil<C, V>(f: (C, V, Key) -> C, u: (C, V, Key) -> bool, init: C, a: seq<(Key, V)>)
    returns (out: Outcome<C, V>, trace: seq<Call<C, V>>)
    ensures out.key.None? <==> forall i :: 0 <= i < |a| ==> !StopsAt(f, u, init, a, i)
    ensures out.key.None? ==> out == Outcome(FoldLeft(f, init, a), None, None) && trace == Steps(f, init, a)
    ensures out.key.Some? ==>
      exists i :: (0 <= i < |a| && StopsAt(f, u, init, a, i) &&
        (forall j :: 0 <= j < i ==> !StopsAt(f, u, init, a, j)) &&
        out == Outcome(FoldLeft(f, init, a[..i + 1]), Some(a[i].0), Some(a[i].1)) &&
        trace == Steps(f, init, a[..i + 1]))
  {
    var carry := init;
    trace := [];
    var i := 0;
    while i < |a|
      invariant 0 <= i <= |a|
      invariant carry == FoldLeft(f, init, a[..i])
      invariant trace == Steps(f, init, a[..i])
      invariant forall j :: 0 <= j < i ==> !StopsAt(f, u, init, a, j)
    {
      assert a[..i + 1][..i] == a[..i];
      carry := f(carry, a[i].1, a[i].0);
      trace := trace + [Reduce(a[i].0, a[i].1, carry)];
      var stop := u(carry, a[i].1, a[i].0);
      trace := trace + [Until(a[i].0, a[i].1, carry)];
      assert carry == FoldLeft(f, init, a[..i + 1]);
      if stop {
        assert StopsAt(f, u, init, a, i);
        out := Outcome(carry, Some(a[i].0), Some(a[i].1));
        return;
      }
      i := i + 1;
    }
    assert a[..i] == a;
    out := Outcome(carry, None, None);
  }

  /** On an empty array neither callback is called and the initial carry
      comes back with null key and value. */
  method EmptyInput<C, V>(f: (C, V, Key) -> C, u: (C, V, Key) -> bool, init: C)
    returns (out: Outcome<C, V>, trace: seq<Call<C, V>>)
    ensures out == Outcome(init, None, None) && trace == []
  {
    out, trace := ArrayReduceUntil(f, u, init, []);
  }

  /** The trace alternates reducer and `until` calls, one pair each, in array
      order, with the carry each was given. */
  lemma {:induction false} StepsShape<C, V>(f: (C, V, Key) -> C, init: C, a: seq<(Key, V)>)
    ensures |Steps(f, init, a)| == 2 * |a|
    ensures forall i :: 0 <= i < |a| ==>
      && Steps(f, init, a)[2 * i] == Reduce(a[i].0, a[i].1, FoldLeft(f, init, a[..i + 1]))
      && Steps(f, init, a)[2 * i + 1] == Until(a[i].0, a[i].1, FoldLeft(f, init, a[..i + 1]))
    decreases |a|
  {
    if a != [] {
      var init' := a[..|a| - 1];
      StepsShape(f, init, init');
      forall i | 0 <= i < |a| - 1 ensures a[..i + 1] == init'[..i + 1] && a[i] == init'[i] { }
      assert a[..|a|] == a;
    }
  }
}
