/** `array_dissoc(...keys)` and `array_nth(i)`: removing keys from an array
    and reading a value by its position in iteration order. Both return a
    new value; the input array is left as it was. */
module ArrayAccess {
  import opened PhpArray
  import Lazy

  /** The array without the pairs whose key is one of `ks`; the remaining
      pairs keep their keys and their order. */
  function Dissoc<V>(a: seq<(Key, V)>, ks: seq<Key>): (r: seq<(Key, V)>)
    ensures |r| <= |a|
    ensures forall i :: 0 <= i < |r| ==> r[i] in a && r[i].0 !in ks
    ensures forall i :: 0 <= i < |a| && a[i].0 !in ks ==> a[i] in r
    decreases |a|
  {
    if a == [] then []
    else (if a[0].0 in ks then [] else [a[0]]) + Dissoc(a[1..], ks)
  }

  /** The filter that keeps the pairs whose key is not in `ks`. */
  function Kept<V>(ks: seq<Key>): (V, Key) -> bool {
    (v: V, k: Key) => k !in ks
  }

  /** Removing keys is filtering on the key, so the pairs that remain keep
      their input order. */
  lemma {:induction false} DissocIsFilter<V>(a: seq<(Key, V)>, ks: seq<Key>)
    ensures Dissoc(a, ks) == Lazy.Filtered(Kept(ks), a)
    decreases |a|
  {
    if a != [] {
      var init, last := a[..|a| - 1], a[|a| - 1];
      assert a == init + [last];
      DissocIsFilter(init, ks);
      DissocSnoc(init, last, ks);
    }
  }

  /** Removing keys from an array grown by one pair. */
  lemma {:induction false} DissocSnoc<V>(a: seq<(Key, V)>, x: (Key, V), ks: seq<Key>)
    ensures Dissoc(a + [x], ks) == Dissoc(a, ks) + (if x.0 in ks then [] else [x])
    decreases |a|
  {
    if a == [] {
      assert [] + [x] == [x];
      assert [x][1..] == [];
    } else {
      assert (a + [x])[0] == a[0];
      assert (a + [x])[1..] == a[1..] + [x];
      DissocSnoc(a[1..], x, ks);
    }
  }

  /** The order of what remains: pair j of the result is the input pair at
      the j-th kept position, the kept positions strictly increase, and a
      position is kept exactly when its key is not removed. */
  lemma DissocOrder<V>(a: seq<(Key, V)>, ks: seq<Key>)
    ensures |Lazy.Accepted(Kept(ks), a)| == |Dissoc(a, ks)|
    ensures forall j :: 0 <= j < |Dissoc(a, ks)| ==>
      Lazy.Accepted(Kept(ks), a)[j] < |a| && Dissoc(a, ks)[j] == a[Lazy.Accepted(Kept(ks), a)[j]]
    ensures forall j, k :: 0 <= j < k < |Lazy.Accepted(Kept(ks), a)| ==>
      Lazy.Accepted(Kept(ks), a)[j] < Lazy.Accepted(Kept(ks), a)[k]
    ensures forall i :: 0 <= i < |a| ==> (i in Lazy.Accepted(Kept(ks), a) <==> a[i].0 !in ks)
  {
    DissocIsFilter(a, ks);
    Lazy.FilteredOrder(Kept(ks), a);
  }

  /** Reading the result: a removed key is absent, every other key reads as
      it did in the input. */
  lemma {:induction false} DissocGet<V>(a: seq<(Key, V)>, ks: seq<Key>, k: Key)
    ensures Get(Dissoc(a, ks), k) == if k in ks then None else Get(a, k)
    decreases |a|
  {
    if a != [] {
      DissocGet(a[1..], ks, k);
      var rest := Dissoc(a[1..], ks);
      if a[0].0 in ks {
        assert Dissoc(a, ks) == rest;
        if a[0].0 != k {
          assert Get(a, k) == Get(a[1..], k);
        }
      } else {
        var b := [a[0]] + rest;
        assert Dissoc(a, ks) == b;
        if a[0].0 == k {
          assert Get(b, k) == Some(a[0].1) == Get(a, k);
        } else {
          assert b[1..] == rest;
          assert Get(b, k) == Get(rest, k);
          assert Get(a, k) == Get(a[1..], k);
        }
      }
    }
  }

  /** Removing keys from a real array leaves a real array. */
  lemma {:induction false} DissocIsMap<V>(a: seq<(Key, V)>, ks: seq<Key>)
    requires IsMap(a)
    ensures IsMap(Dissoc(a, ks))
    decreases |a|
  {
    if a != [] {
      assert IsMap(a[1..]);
      DissocIsMap(a[1..], ks);
      var rest := Dissoc(a[1..], ks);
      if a[0].0 !in ks {
        forall j | 0 <= j < |rest| ensures a[0].0 != rest[j].0 {
          assert rest[j] in a[1..];
        }
        assert Dissoc(a, ks) == [a[0]] + rest;
      }
    }
  }

  /** Keys that are not in the array are ignored: the result is the input. */
  lemma {:induction false} DissocMissing<V>(a: seq<(Key, V)>, ks: seq<Key>)
    requires forall k :: k in ks ==> k !in Keys(a)
    ensures Dissoc(a, ks) == a
    decreases |a|
  {
    if a != [] {
      assert a[0].0 == Keys(a)[0] && a[0].0 !in ks;
      assert Keys(a[1..]) == Keys(a)[1..];
      forall k | k in ks ensures k !in Keys(a[1..]) {
        assert k !in Keys(a);
      }
      DissocMissing(a[1..], ks);
      assert Dissoc(a, ks) == [a[0]] + Dissoc(a[1..], ks);
      assert [a[0]] + a[1..] == a;
    }
  }

  /** Removing the keys of `ks` and then those of `ls` is removing both at
      once; in particular removing the same keys twice changes nothing. */
  lemma {:induction false} DissocTwice<V>(a: seq<(Key, V)>, ks: seq<Key>, ls: seq<Key>)
    ensures Dissoc(Dissoc(a, ks), ls) == Dissoc(a, ks + ls)
    decreases |a|
  {
    if a != [] {
      DissocTwice(a[1..], ks, ls);
      var rest := Dissoc(a[1..], ks);
      var both := Dissoc(a[1..], ks + ls);
      if a[0].0 in ks {
        assert a[0].0 in ks + ls;
        assert Dissoc(a, ks) == rest;
        assert Dissoc(a, ks + ls) == both;
      } else {
        var b := [a[0]] + rest;
        assert Dissoc(a, ks) == b;
        assert b[1..] == rest;
        assert Dissoc(b, ls) == (if a[0].0 in ls then [] else [a[0]]) + Dissoc(rest, ls);
        assert (a[0].0 in ks + ls) == (a[0].0 in ls);
      }
    }
  }

  /** The examples: `['a' => 1, 'b' => 2, 'c' => 3]` without 'a' and 'c' is
      `['b' => 2]`, and `[10 => 'x', 20 => 'y', 30 => 'z']` without 20 is
      `[10 => 'x', 30 => 'z']`. */
  lemma DissocExamples()
    ensures Dissoc([(S("a"), 1), (S("b"), 2), (S("c"), 3)], [S("a"), S("c")]) == [(S("b"), 2)]
    ensures Dissoc([(I(10), "x"), (I(20), "y"), (I(30), "z")], [I(20)]) == [(I(10), "x"), (I(30), "z")]
  {
    var a := [(S("a"), 1), (S("b"), 2), (S("c"), 3)];
    assert a[1..] == [(S("b"), 2), (S("c"), 3)];
    assert a[1..][1..] == [(S("c"), 3)];
    var b := [(I(10), "x"), (I(20), "y"), (I(30), "z")];
    assert b[1..] == [(I(20), "y"), (I(30), "z")];
    assert b[1..][1..] == [(I(30), "z")];
  }

  /** The value at position n in iteration order, whatever the keys; a
      negative n counts from the end, so -1 is the last value; a position
      outside the array gives null. Found exactly for the positions
      -|a| .. |a| - 1. */
  function ArrayNth<V>(a: seq<(Key, V)>, n: int): (r: Option<V>)
    ensures r.Some? <==> -|a| <= n < |a|
    ensures 0 <= n < |a| ==> r == Some(Values(a)[n])
    ensures -|a| <= n < 0 ==> r == Some(Values(a)[|a| + n])
  {
    var j := if n < 0 then |a| + n else n;
    if 0 <= j < |a| then Some(a[j].1) else None
  }

  /** A negative position is the position that many from the end. */
  lemma NthNegative<V>(a: seq<(Key, V)>, n: int)
    requires -|a| <= n < 0
    ensures ArrayNth(a, n) == ArrayNth(a, |a| + n)
  {
  }

  /** Only the order of the values matters, not the keys: the same values
      as a list give the same answer. */
  lemma NthIgnoresKeys<V>(a: seq<(Key, V)>, n: int)
    ensures ArrayNth(a, n) == ArrayNth(List(Values(a)), n)
  {
  }

  /** On a list, position n >= 0 is the value under key n. */
  lemma NthOfList<V>(vs: seq<V>, n: int)
    requires 0 <= n
    ensures ArrayNth(List(vs), n) == Get(List(vs), I(n))
  {
    if n < |vs| {
      GetAt(List(vs), n);
    } else {
      assert I(n) !in Keys(List(vs));
    }
  }

  /** The examples: `[10, 20, 30]` gives 20 at 1, 30 at -1 and null at 99;
      `['a' => 10, 'b' => 20, 'c' => 30]` gives 30 at 2; `[]` gives null. */
  lemma NthExamples()
    ensures ArrayNth(List([10, 20, 30]), 1) == Some(20)
    ensures ArrayNth(List([10, 20, 30]), -1) == Some(30)
    ensures ArrayNth(List([10, 20, 30]), 99) == None
    ensures ArrayNth([(S("a"), 10), (S("b"), 20), (S("c"), 30)], 2) == Some(30)
    ensures ArrayNth<int>([], 0) == None
  {
  }
}
