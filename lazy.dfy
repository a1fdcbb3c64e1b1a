/** The lazy consumers of a one-shot source: `iterable_take`, `iterable_nth`,
    `iterable_first`, `iterable_all`, `iterable_any`, `iterable_filter`,
    `iterable_map` and `iterable_reduce`. A PHP generator runs its body only
    up to the next `yield` when asked for an element, so how far a consumer
    pulls is observable; it is modelled by a cursor over the pairs the
    generator would yield. */
module Lazy {
  import opened PhpArray
  import Pipe

  /** A generator over a finite list of pairs. `pos` is the element it sits
      on (|items| once exhausted); `started` says whether its body has run
      at all. */
  class Generator<T> {
    const items: seq<(Key, T)>
    var pos: nat
    var started: bool

    ghost predicate Valid()
      reads this
    {
      pos <= |items| && (!started ==> pos == 0)
    }

    /** How many elements the body has produced so far: every element up to
        and including the one it sits on. */
    function Produced(): (n: nat)
      reads this
      requires Valid()
      ensures n <= |items|
    {
      if !started then 0 else if pos < |items| then pos + 1 else |items|
    }

    constructor(items: seq<(Key, T)>)
      ensures Valid() && this.items == items && pos == 0 && !started
    {
      this.items := items;
      pos := 0;
      started := false;
    }

    /** `current()` (with `key()` and `valid()`): runs the body to its first
        `yield` if it has not started, then reports the pair it sits on, or
        None once exhausted. */
    method Current() returns (x: Option<(Key, T)>)
      requires Valid()
      modifies this
      ensures Valid() && started && pos == old(pos)
      ensures x == if pos < |items| then Some(items[pos]) else None
    {
      started := true;
      if pos < |items| {
        x := Some(items[pos]);
      } else {
        x := None;
      }
    }

    /** `next()`: moves on to the following element (starting the body
        first if need be). */
    method Next()
      requires Valid()
      modifies this
      ensures Valid() && started
      ensures pos == if old(pos) < |items| then old(pos) + 1 else |items|
    {
      started := true;
      if pos < |items| {
        pos := pos + 1;
      }
    }
  }

  function Min(a: nat, b: nat): nat {
    if a <= b then a else b
  }

  /** `iterable_take(n)`: a negative n is rejected before the source is
      touched; otherwise the first n pairs with their own keys, and the
      source has produced exactly min(n, length) elements (n = 0 leaves it
      as it was, so a fresh one is never started). The source sits on its
      first element, fresh or already started: PHP rewinds it, which a
      generator allows until it has moved past its first `yield`. */
  method Take<T>(n: int, src: Generator<T>) returns (r: Result<seq<(Key, T)>>)
    requires src.Valid() && src.pos == 0
    modifies src
    ensures r.Err? <==> n < 0
    ensures r.Err? ==> r.error == InvalidArgument
    ensures r.Ok? ==> r.value == src.items[..Min(n, |src.items|)]
    ensures n <= 0 ==> unchanged(src)
    ensures src.Valid() && src.Produced() == if n <= 0 then old(src.Produced()) else Min(n, |src.items|)
  {
    if n < 0 {
      return Err(InvalidArgument);
    }
    if n == 0 {
      return Ok([]);
    }
    var out := [];
    var x := src.Current();
    while x.Some?
      invariant src.Valid() && src.started
      invariant src.pos < n && out == src.items[..src.pos]
      invariant x == if src.pos < |src.items| then Some(src.items[src.pos]) else None
      decreases |src.items| - src.pos
    {
      out := out + [x.value];
      if |out| == n {
        return Ok(out);
      }
      src.Next();
      x := src.Current();
    }
    return Ok(out);
  }

  /** `iterable_nth(n)`: the value at position n, or None when the source
      is shorter; n + 1 elements are produced (all of them when there are
      fewer). The source sits on its first element, as for `Take`. */
  method Nth<T>(n: int, src: Generator<T>) returns (r: Result<Option<T>>)
    requires src.Valid() && src.pos == 0
    modifies src
    ensures r.Err? <==> n < 0
    ensures r.Err? ==> r.error == InvalidArgument
    ensures r.Ok? ==> r.value == if n < |src.items| then Some(src.items[n].1) else None
    ensures n < 0 ==> unchanged(src)
    ensures src.Valid() && src.Produced() == if n < 0 then old(src.Produced()) else Min(n + 1, |src.items|)
  {
    if n < 0 {
      return Err(InvalidArgument);
    }
    var x := src.Current();
    while x.Some?
      invariant src.Valid() && src.started && src.pos <= n
      invariant x == if src.pos < |src.items| then Some(src.items[src.pos]) else None
      decreases |src.items| - src.pos
    {
      if src.pos == n {
        return Ok(Some(x.value.1));
      }
      src.Next();
      x := src.Current();
    }
    return Ok(None);
  }

  /** `iterable_first`: the first value, keys ignored, or None for an empty
      source; the source is left on its first element. */
  method First<T>(src: Generator<T>) returns (r: Option<T>)
    requires src.Valid() && src.pos == 0
    modifies src
    ensures r == if src.items != [] then Some(src.items[0].1) else None
    ensures src.Valid() && src.pos == 0 && src.Produced() == Min(1, |src.items|)
  {
    var x := src.Current();
    if x.Some? {
      return Some(x.value.1);
    }
    return None;
  }

  /** After `iterable_first` on the generator yielding 1 to 5, a `next()`
      makes it sit on 2. */
  method FirstThenNext() returns (first: Option<Value>, after: Option<(Key, Value)>)
    ensures first == Some(Int(1)) && after == Some((I(1), Int(2)))
  {
    var src := new Generator(List([Int(1), Int(2), Int(3), Int(4), Int(5)]));
    first := First(src);
    src.Next();
    after := src.Current();
  }

  /** `iterable_all(p)`: true exactly when every value satisfies p; it
      stops on the first value that does not and leaves the source there. */
  method All<T>(p: T -> bool, src: Generator<T>) returns (b: bool)
    requires src.Valid() && src.pos == 0
    modifies src
    ensures b <==> forall i :: 0 <= i < |src.items| ==> p(src.items[i].1)
    ensures src.Valid() && forall i :: 0 <= i < src.pos ==> p(src.items[i].1)
    ensures b ==> src.pos == |src.items|
    ensures !b ==> src.pos < |src.items| && !p(src.items[src.pos].1)
  {
    var x := src.Current();
    while x.Some?
      invariant src.Valid() && src.started
      invariant forall i :: 0 <= i < src.pos ==> p(src.items[i].1)
      invariant x == if src.pos < |src.items| then Some(src.items[src.pos]) else None
      decreases |src.items| - src.pos
    {
      if !p(x.value.1) {
        return false;
      }
      src.Next();
      x := src.Current();
    }
    return true;
  }

  /** `iterable_any(p)`: true exactly when some value satisfies p; it stops
      on the first one that does and leaves the source there. */
  method Any<T>(p: T -> bool, src: Generator<T>) returns (b: bool)
    requires src.Valid() && src.pos == 0
    modifies src
    ensures b <==> exists i :: 0 <= i < |src.items| && p(src.items[i].1)
    ensures src.Valid() && forall i :: 0 <= i < src.pos ==> !p(src.items[i].1)
    ensures b ==> src.pos < |src.items| && p(src.items[src.pos].1)
    ensures !b ==> src.pos == |src.items|
  {
    var x := src.Current();
    while x.Some?
      invariant src.Valid() && src.started
      invariant forall i :: 0 <= i < src.pos ==> !p(src.items[i].1)
      invariant x == if src.pos < |src.items| then Some(src.items[src.pos]) else None
      decreases |src.items| - src.pos
    {
      if p(x.value.1) {
        return true;
      }
      src.Next();
      x := src.Current();
    }
    return false;
  }

  /** The default predicate of `iterable_all` and `iterable_any`: the value
      is identical (`===`) to true. */
  predicate IsTrue(v: Value) {
    v == Bool(true)
  }

  /** `iterable_all()` without a predicate. */
  method AllTrue(src: Generator<Value>) returns (b: bool)
    requires src.Valid() && src.pos == 0
    modifies src
    ensures b <==> forall i :: 0 <= i < |src.items| ==> src.items[i].1 == Bool(true)
  {
    b := All(IsTrue, src);
  }

  /** `iterable_any()` without a predicate. */
  method AnyTrue(src: Generator<Value>) returns (b: bool)
    requires src.Valid() && src.pos == 0
    modifies src
    ensures b <==> exists i :: 0 <= i < |src.items| && src.items[i].1 == Bool(true)
  {
    b := Any(IsTrue, src);
  }

  /** The pairs p accepts, in order, with their keys; p is handed (value,
      key). */
  function Filtered<T>(p: (T, Key) -> bool, a: seq<(Key, T)>): (out: seq<(Key, T)>)
    ensures |out| <= |a|
    ensures forall i :: 0 <= i < |out| ==> p(out[i].1, out[i].0)
    decreases |a|
  {
    if a == [] then []
    else
      var last := a[|a| - 1];
      Filtered(p, a[..|a| - 1]) + if p(last.1, last.0) then [last] else []
  }

  /** `iterable_filter(p)` drained: every pair p accepts, with its key, and
      exactly one predicate call per element. */
  method Filter<T>(p: (T, Key) -> bool, src: Generator<T>) returns (out: seq<(Key, T)>, calls: nat)
    requires src.Valid() && src.pos == 0
    modifies src
    ensures out == Filtered(p, src.items) && calls == |src.items|
    ensures src.Valid() && src.pos == |src.items|
  {
    out, calls := [], 0;
    var x := src.Current();
    while x.Some?
      invariant src.Valid() && src.started && calls == src.pos
      invariant out == Filtered(p, src.items[..src.pos])
      invariant x == if src.pos < |src.items| then Some(src.items[src.pos]) else None
      decreases |src.items| - src.pos
    {
      var (k, v) := x.value;
      calls := calls + 1;
      if p(v, k) {
        out := out + [(k, v)];
      }
      assert src.items[..src.pos + 1][..src.pos] == src.items[..src.pos];
      src.Next();
      x := src.Current();
    }
    assert src.items[..src.pos] == src.items;
  }

  /** The filter keeps exactly the accepted pairs, in their original order
      and with their keys: an accepted pair is kept, a rejected one is not,
      and nothing else appears. */
  lemma {:induction false} FilteredSpec<T>(p: (T, Key) -> bool, a: seq<(Key, T)>)
    ensures forall x :: x in Filtered(p, a) ==> x in a && p(x.1, x.0)
    ensures forall i :: 0 <= i < |a| && p(a[i].1, a[i].0) ==> a[i] in Filtered(p, a)
    ensures |Filtered(p, a)| <= |a|
    decreases |a|
  {
    if a != [] {
      var init := a[..|a| - 1];
      FilteredSpec(p, init);
      assert forall i :: 0 <= i < |init| ==> init[i] == a[i];
    }
  }

  /** The positions of the pairs p accepts, in increasing order. */
  function Accepted<T>(p: (T, Key) -> bool, a: seq<(Key, T)>): (idx: seq<nat>)
    decreases |a|
  {
    if a == [] then []
    else
      var last := a[|a| - 1];
      Accepted(p, a[..|a| - 1]) + if p(last.1, last.0) then [|a| - 1] else []
  }

  /** Order and multiplicity: output pair j is the input pair at the j-th
      accepted position, the positions strictly increase, and a position
      is among them exactly when p accepts its pair. So a pair accepted
      twice is kept twice, and no two kept pairs swap places. */
  lemma FilteredOrder<T>(p: (T, Key) -> bool, a: seq<(Key, T)>)
    ensures |Accepted(p, a)| == |Filtered(p, a)|
    ensures forall j :: 0 <= j < |Filtered(p, a)| ==>
      Accepted(p, a)[j] < |a| && Filtered(p, a)[j] == a[Accepted(p, a)[j]]
    ensures forall j, k :: 0 <= j < k < |Accepted(p, a)| ==> Accepted(p, a)[j] < Accepted(p, a)[k]
    ensures forall i :: 0 <= i < |a| ==> (i in Accepted(p, a) <==> p(a[i].1, a[i].0))
  {
    AcceptedSpec(p, a);
    FilteredAt(p, a);
  }

  /** The accepted positions lie in the input, strictly increase, and are
      exactly the positions whose pair p accepts. */
  lemma {:induction false} AcceptedSpec<T>(p: (T, Key) -> bool, a: seq<(Key, T)>)
    ensures forall j :: 0 <= j < |Accepted(p, a)| ==> Accepted(p, a)[j] < |a|
    ensures forall j, k :: 0 <= j < k < |Accepted(p, a)| ==> Accepted(p, a)[j] < Accepted(p, a)[k]
    ensures forall i :: 0 <= i < |a| ==> (i in Accepted(p, a) <==> p(a[i].1, a[i].0))
    decreases |a|
  {
    if a != [] {
      var init := a[..|a| - 1];
      var last := a[|a| - 1];
      AcceptedSpec(p, init);
      assert forall i :: 0 <= i < |init| ==> init[i] == a[i];
      var ix := Accepted(p, init);
      if p(last.1, last.0) {
        assert Accepted(p, a) == ix + [|a| - 1];
      } else {
        assert Accepted(p, a) == ix;
        assert |a| - 1 !in ix;
      }
    }
  }

  /** Output pair j is the input pair at the j-th accepted position. */
  lemma {:induction false} FilteredAt<T>(p: (T, Key) -> bool, a: seq<(Key, T)>)
    ensures |Accepted(p, a)| == |Filtered(p, a)|
    ensures forall j :: 0 <= j < |Filtered(p, a)| ==>
      Accepted(p, a)[j] < |a| && Filtered(p, a)[j] == a[Accepted(p, a)[j]]
    decreases |a|
  {
    if a != [] {
      var init := a[..|a| - 1];
      var last := a[|a| - 1];
      FilteredAt(p, init);
      assert forall i :: 0 <= i < |init| ==> init[i] == a[i];
      if p(last.1, last.0) {
        assert Accepted(p, a) == Accepted(p, init) + [|a| - 1];
        assert Filtered(p, a) == Filtered(p, init) + [last];
      }
    }
  }

  /** A predicate that accepts everything keeps the whole source. */
  lemma {:induction false} FilteredAll<T>(p: (T, Key) -> bool, a: seq<(Key, T)>)
    requires forall i :: 0 <= i < |a| ==> p(a[i].1, a[i].0)
    ensures Filtered(p, a) == a
    decreases |a|
  {
    if a != [] {
      FilteredAll(p, a[..|a| - 1]);
      assert a[..|a| - 1] + [a[|a| - 1]] == a;
    }
  }

  /** `iterable_map(f)` drained: the same keys with the mapped values, one
      mapper call per element; it agrees with `array_map`. */
  method Map<T, W>(f: T -> W, src: Generator<T>) returns (out: seq<(Key, W)>, calls: nat)
    requires src.Valid() && src.pos == 0
    modifies src
    ensures out == Pipe.ArrayMap(f, src.items) && calls == |src.items|
    ensures src.Valid() && src.pos == |src.items|
  {
    out, calls := [], 0;
    var x := src.Current();
    while x.Some?
      invariant src.Valid() && src.started && calls == src.pos && |out| == src.pos
      invariant forall i :: 0 <= i < src.pos ==> out[i] == (src.items[i].0, f(src.items[i].1))
      invariant x == if src.pos < |src.items| then Some(src.items[src.pos]) else None
      decreases |src.items| - src.pos
    {
      var (k, v) := x.value;
      calls := calls + 1;
      out := out + [(k, f(v))];
      src.Next();
      x := src.Current();
    }
    MapAgrees(f, src.items, out);
  }

  lemma MapAgrees<T, W>(f: T -> W, a: seq<(Key, T)>, out: seq<(Key, W)>)
    requires |out| == |a| && forall i :: 0 <= i < |a| ==> out[i] == (a[i].0, f(a[i].1))
    ensures out == Pipe.ArrayMap(f, a)
  {
    var m := Pipe.ArrayMap(f, a);
    forall i | 0 <= i < |a| ensures out[i] == m[i] {
      assert Keys(m)[i] == m[i].0;
    }
  }

  /** `iterable_reduce(f, initial)` drained: the left fold from `initial`,
      the reducer handed (carry, value, key) once per element in order. */
  method Reduce<C, T>(f: (C, T, Key) -> C, initial: C, src: Generator<T>) returns (carry: C, calls: nat)
    requires src.Valid() && src.pos == 0
    modifies src
    ensures carry == FoldLeft(f, initial, src.items) && calls == |src.items|
    ensures src.Valid() && src.pos == |src.items|
  {
    carry, calls := initial, 0;
    var x := src.Current();
    while x.Some?
      invariant src.Valid() && src.started && calls == src.pos
      invariant carry == FoldLeft(f, initial, src.items[..src.pos])
      invariant x == if src.pos < |src.items| then Some(src.items[src.pos]) else None
      decreases |src.items| - src.pos
    {
      var (k, v) := x.value;
      calls := calls + 1;
      carry := f(carry, v, k);
      assert src.items[..src.pos + 1][..src.pos] == src.items[..src.pos];
      src.Next();
      x := src.Current();
    }
    assert src.items[..src.pos] == src.items;
  }

  /** With `initial` left at its default null, a reducer that starts a list
      from null and appends each value collects all the values; an empty
      source gives null back. */
  lemma {:induction false} ReduceFromNull<T>(a: seq<(Key, T)>)
    ensures FoldLeft((carry: Option<seq<T>>, v: T, k: Key) => Some((if carry.None? then [] else carry.value) + [v]), None, a)
      == if a == [] then None else Some(Values(a))
    decreases |a|
  {
    if a != [] {
      var init := a[..|a| - 1];
      ReduceFromNull(init);
      assert Values(a) == Values(init) + [a[|a| - 1].1];
    }
  }
}
