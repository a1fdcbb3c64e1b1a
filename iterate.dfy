/** `iterate(f, include_seed)` and `iterable_ticker(start)`: infinite
    generators. The generator for `iterate` yields the seed (unless it is
    excluded) and then keeps replacing its value by f of it; keys count 0,
    1, 2, ... The ticker is the same generator over the successor function. */
module Iterate {
  import opened PhpArray

  /** f applied i times to x. */
  function Apply<T>(f: T -> T, x: T, i: nat): T
  {
    if i == 0 then x else f(Apply(f, x, i - 1))
  }

  /** Applying i times and then j more times is applying i + j times. */
  lemma {:induction false} ApplyAdd<T>(f: T -> T, x: T, i: nat, j: nat)
    ensures Apply(f, Apply(f, x, i), j) == Apply(f, x, i + j)
    decreases j
  {
    if j > 0 {
      ApplyAdd(f, x, i, j - 1);
    }
  }

  /** The running generator. Until it is first asked for an element it has
      not run at all; from then on it sits on key `key` with value
      f^(key + offset)(seed), having called f exactly key + offset times
      (offset 1 when the seed is excluded). */
  class Iteration<T> {
    const f: T -> T
    const seed: T
    const includeSeed: bool
    var started: bool
    var key: nat
    var value: T
    var calls: nat

    function Offset(): (o: nat)
    {
      if includeSeed then 0 else 1
    }

    ghost predicate Valid()
      reads this
    {
      && (started ==> value == Apply(f, seed, key + Offset()) && calls == key + Offset())
      && (!started ==> key == 0 && calls == 0 && value == seed)
    }

    /** Creating the generator calls nothing. */
    constructor(f: T -> T, seed: T, includeSeed: bool)
      ensures Valid() && !started && calls == 0
      ensures this.f == f && this.seed == seed && this.includeSeed == includeSeed
    {
      this.f := f;
      this.seed := seed;
      this.includeSeed := includeSeed;
      started := false;
      key := 0;
      value := seed;
      calls := 0;
    }

    /** `key()` and `current()`: start the body if need be, then report
        where the generator sits. */
    method Current() returns (k: nat, v: T)
      requires Valid()
      modifies this
      ensures Valid() && started && key == old(key)
      ensures k == key && v == Apply(f, seed, key + Offset())
      ensures calls == key + Offset()
    {
      if !started {
        started := true;
        if !includeSeed {
          value := f(value);
          calls := calls + 1;
        }
      }
      k, v := key, value;
    }

    /** `next()`: one more call of f, one key further. */
    method Next()
      requires Valid()
      modifies this
      ensures Valid() && started
      ensures key == old(key) + 1
      ensures calls == key + Offset()
    {
      var _, _ := Current();
      value := f(value);
      calls := calls + 1;
      key := key + 1;
    }
  }

  /** `iterable_take(n)` over the generator: the first n values, keyed 0 to
      n - 1, with f called only for the values taken; the generator is left
      on the last one. */
  method Take<T>(n: nat, g: Iteration<T>) returns (out: seq<(Key, T)>)
    requires g.Valid() && !g.started
    modifies g
    ensures |out| == n
    ensures forall i :: 0 <= i < n ==> out[i] == (I(i), Apply(g.f, g.seed, i + g.Offset()))
    ensures g.Valid()
    ensures n > 0 ==> g.started && g.key == n - 1 && g.calls == n - 1 + g.Offset()
    ensures n == 0 ==> g.calls == 0
  {
    out := [];
    if n == 0 {
      return;
    }
    var k, v := g.Current();
    out := TakeRest(n, g, [(I(k), v)]);
  }

  /** The loop of `Take`: one `next()` per further value, until n are out. */
  method TakeRest<T>(n: nat, g: Iteration<T>, first: seq<(Key, T)>) returns (out: seq<(Key, T)>)
    requires g.Valid() && g.started && 1 <= |first| <= n && g.key == |first| - 1
    requires forall i :: 0 <= i < |first| ==> first[i] == (I(i), Apply(g.f, g.seed, i + g.Offset()))
    modifies g
    ensures |out| == n
    ensures forall i :: 0 <= i < n ==> out[i] == (I(i), Apply(g.f, g.seed, i + g.Offset()))
    ensures g.Valid() && g.started && g.key == n - 1
  {
    out := first;
    while |out| < n
      invariant g.Valid() && g.started && 1 <= |out| <= n && g.key == |out| - 1
      invariant forall i :: 0 <= i < |out| ==> out[i] == (I(i), Apply(g.f, g.seed, i + g.Offset()))
      decreases n - |out|
    {
      g.Next();
      var k, v := g.Current();
      out := out + [(I(k), v)];
    }
  }

  /** Doubling a string from "a", seed included: take(3) yields "a", "aa",
      "aaaa", and the generator is then still on "aaaa" after two calls. */
  method DoublingExample() returns (out: seq<(Key, string)>, current: string, calls: nat)
    ensures out == [(I(0), "a"), (I(1), "aa"), (I(2), "aaaa")]
    ensures current == "aaaa" && calls == 2
  {
    var g := new Iteration(Double, "a", true);
    out := Take(3, g);
    var _, v := g.Current();
    current, calls := v, g.calls;
    assert Apply(Double, "a", 1) == "aa";
    assert Apply(Double, "a", 2) == "aaaa";
  }

  function Double(s: string): string {
    s + s
  }

  /** The ticker's step. */
  function Succ(x: int): int {
    x + 1
  }

  /** The ticker started at s holds s + i at key i. */
  lemma {:induction false} TickerValues(s: int, i: nat)
    ensures Apply(Succ, s, i) == s + i
  {
    if i > 0 {
      TickerValues(s, i - 1);
    }
  }

  /** `iterable_ticker(start)`: `iterate(x => x + 1)` from start, seed
      included. */
  method Ticker(start: int) returns (g: Iteration<int>)
    ensures fresh(g) && g.Valid() && !g.started && g.f == Succ && g.seed == start && g.Offset() == 0
  {
    g := new Iteration(Succ, start, true);
  }

  /** Advancing the ticker by hand: each `next()` moves key and value on by
      exactly one. */
  method TickerByHand(start: int) returns (k0: nat, v0: int, k1: nat, v1: int)
    ensures k0 == 0 && v0 == start && k1 == 1 && v1 == start + 1
  {
    var g := Ticker(start);
    k0, v0 := g.Current();
    g.Next();
    k1, v1 := g.Current();
    TickerValues(start, 1);
  }

  /** Taking n from the ticker yields exactly n values, start to
      start + n - 1, keyed 0 to n - 1. */
  method TakeTicker(start: int, n: nat) returns (out: seq<(Key, int)>)
    ensures |out| == n && forall i :: 0 <= i < n ==> out[i] == (I(i), start + i)
  {
    var g := Ticker(start);
    out := Take(n, g);
    forall i | 0 <= i < n ensures out[i] == (I(i), start + i) {
      TickerValues(start, i);
    }
  }
}
