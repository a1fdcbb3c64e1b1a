/** `array_flatten` merges the inner arrays of an array one level deep, the
    way `array_merge` does: integer keys are renumbered 0, 1, 2, ... across
    the whole result, string keys are kept and a later value under a string
    key already present replaces the earlier one in place.
    `iterable_flatten(preserve_keys)` yields the inner pairs lazily, one
    inner source at a time. */
module Flatten {
  import opened PhpArray

  /** An element of the outer array: an inner array, or anything else (a
      string, null, ...). */
  datatype Element<V> = Arr(entries: seq<(Key, V)>) | Scalar

  predicate AllArrays<V>(outer: seq<(Key, Element<V>)>) {
    forall i :: 0 <= i < |outer| ==> outer[i].1.Arr?
  }

  /** The inner arrays, in outer order. */
  function Inner<V>(outer: seq<(Key, Element<V>)>): (arrays: seq<seq<(Key, V)>>)
    requires AllArrays(outer)
    ensures |arrays| == |outer|
  {
    seq(|outer|, i requires 0 <= i < |outer| => outer[i].1.entries)
  }

  /** The merge of the inner arrays: every inner pair in order, integer keys
      renumbered, each assigned in turn. */
  function Merged<V>(arrays: seq<seq<(Key, V)>>): (m: seq<(Key, V)>)
    ensures IsMap(m)
    ensures Keys(m) == Dedup(Keys(Renumber(Concat(arrays), 0)))
  {
    CollectSpec(Renumber(Concat(arrays), 0));
    Collect(Renumber(Concat(arrays), 0))
  }

  /** `array_flatten`: a TypeError when any element is not an array;
      otherwise every inner pair is assigned in turn, a string key under its
      own name and an integer key under the next free index. */
  method ArrayFlatten<V>(outer: seq<(Key, Element<V>)>) returns (r: Result<seq<(Key, V)>>)
    ensures r.Err? <==> !AllArrays(outer)
    ensures r.Err? ==> r.error == TypeError
    ensures r.Ok? ==> AllArrays(outer) && r.value == Merged(Inner(outer))
  {
    var i := 0;
    while i < |outer|
      invariant 0 <= i <= |outer|
      invariant forall j :: 0 <= j < i ==> outer[j].1.Arr?
    {
      if outer[i].1.Scalar? {
        return Err(TypeError);
      }
      i := i + 1;
    }
    var out: seq<(Key, V)> := [];
    var next := 0;
    ghost var flat: seq<(Key, V)> := [];
    i := 0;
    while i < |outer|
      invariant 0 <= i <= |outer|
      invariant flat == Concat(Inner(outer)[..i])
      invariant out == Collect(Renumber(flat, 0))
      invariant next == IntKeysBefore(flat, |flat|)
    {
      var entries := outer[i].1.entries;
      out, next := AssignAll(out, next, entries, flat);
      ConcatAppend(Inner(outer)[..i], [entries]);
      assert Inner(outer)[..i + 1] == Inner(outer)[..i] + [entries];
      flat := flat + entries;
      i := i + 1;
    }
    assert Inner(outer)[..i] == Inner(outer);
    return Ok(out);
  }

  /** The pairs of one inner array assigned into the result in turn. */
  method AssignAll<V>(out: seq<(Key, V)>, next: nat, entries: seq<(Key, V)>, ghost done: seq<(Key, V)>)
    returns (out': seq<(Key, V)>, next': nat)
    requires out == Collect(Renumber(done, 0)) && next == IntKeysBefore(done, |done|)
    ensures out' == Collect(Renumber(done + entries, 0))
    ensures next' == IntKeysBefore(done + entries, |done + entries|)
  {
    out', next' := out, next;
    ghost var flat := done;
    var j := 0;
    while j < |entries|
      invariant 0 <= j <= |entries|
      invariant flat == done + entries[..j]
      invariant out' == Collect(Renumber(flat, 0))
      invariant next' == IntKeysBefore(flat, |flat|)
    {
      out', next' := Assign(out', next', entries[j], flat);
      assert entries[..j + 1] == entries[..j] + [entries[j]];
      flat := flat + [entries[j]];
      j := j + 1;
    }
    assert entries[..j] == entries;
  }

  /** One inner pair assigned into the result. */
  method Assign<V>(out: seq<(Key, V)>, next: nat, x: (Key, V), ghost flat: seq<(Key, V)>)
    returns (out': seq<(Key, V)>, next': nat)
    requires out == Collect(Renumber(flat, 0)) && next == IntKeysBefore(flat, |flat|)
    ensures out' == Collect(Renumber(flat + [x], 0))
    ensures next' == IntKeysBefore(flat + [x], |flat + [x]|)
  {
    RenumberSnoc(flat, x, 0);
    IntKeysAppend(flat, [x], |flat|);
    var r := Renumber(flat + [x], 0);
    assert r[..|r| - 1] == Renumber(flat, 0);
    if x.0.S? {
      out' := Put(out, x.0, x.1);
      next' := next;
    } else {
      out' := Put(out, I(next), x.1);
      next' := next + 1;
    }
  }

  /** Inner arrays that are all lists merge into the list of all their
      values, in order. */
  lemma FlattenLists<V>(arrays: seq<seq<(Key, V)>>)
    requires forall a, x :: a in arrays && x in a ==> x.0.I?
    ensures Merged(arrays) == List(Values(Concat(arrays)))
  {
    var flat := Concat(arrays);
    forall p | 0 <= p < |flat| ensures flat[p].0.I? {
      ConcatMember(arrays, flat[p]);
    }
    RenumberAllInts(flat);
    CollectOfMap(List(Values(flat)));
  }

  /** The merge is a map holding every string key of the inner arrays and
      the integer keys 0 up to the number of integer-keyed inner pairs, and
      nothing else; it is empty exactly when every inner array is. */
  lemma FlattenKeys<V>(arrays: seq<seq<(Key, V)>>)
    ensures var flat := Concat(arrays);
      && IsMap(Merged(arrays))
      && (forall k :: k in Keys(Merged(arrays)) <==>
            (k.S? && k in Keys(flat)) || (k.I? && 0 <= k.i < IntKeysBefore(flat, |flat|)))
      && (Merged(arrays) == [] <==> flat == [])
  {
    var flat := Concat(arrays);
    var r := Renumber(flat, 0);
    CollectSpec(r);
    DedupProps(Keys(r));
    RenumberKeys(flat, 0);
    forall k ensures k in Keys(r) <==> (k.S? && k in Keys(flat)) || (k.I? && 0 <= k.i < IntKeysBefore(flat, |flat|)) {
      if k in Keys(r) {
        var p :| 0 <= p < |r| && r[p].0 == k;
        if flat[p].0.I? {
          IntKeysGrowTo(flat, p);
        }
      }
      if k.S? && k in Keys(flat) {
        var p :| 0 <= p < |flat| && flat[p].0 == k;
        assert r[p].0 == k;
      }
      if k.I? && 0 <= k.i < IntKeysBefore(flat, |flat|) {
        IntKeyReached(flat, |flat|, k.i);
        var p :| 0 <= p < |flat| && flat[p].0.I? && IntKeysBefore(flat, p) == k.i;
        assert r[p].0 == k;
      }
    }
    if flat != [] {
      assert Keys(r)[0] in Keys(r);
    }
  }

  /** An integer-keyed pair is counted among the integer keys up to the end. */
  lemma IntKeysGrowTo<V>(a: seq<(Key, V)>, p: nat)
    requires p < |a| && a[p].0.I?
    ensures IntKeysBefore(a, p) < IntKeysBefore(a, |a|)
  {
    IntKeysGrow(a, p, |a|);
  }

  /** A string key keeps the value of the last inner pair carrying it. */
  lemma FlattenStringKey<V>(arrays: seq<seq<(Key, V)>>, s: string, i: nat)
    requires LastWith(Concat(arrays), S(s), i)
    ensures Get(Merged(arrays), S(s)) == Some(Concat(arrays)[i].1)
  {
    var flat := Concat(arrays);
    var r := Renumber(flat, 0);
    RenumberKeys(flat, 0);
    RenumberValues(flat, 0);
    assert Values(r)[i] == r[i].1;
    assert LastWith(r, S(s), i);
    CollectGet(r);
  }

  /** The integer-keyed inner pair at position p ends up under the number
      of integer-keyed pairs before it, with its own value. */
  lemma FlattenIntKey<V>(arrays: seq<seq<(Key, V)>>, p: nat)
    requires p < |Concat(arrays)| && Concat(arrays)[p].0.I?
    ensures Get(Merged(arrays), I(IntKeysBefore(Concat(arrays), p))) == Some(Concat(arrays)[p].1)
  {
    var flat := Concat(arrays);
    var r := Renumber(flat, 0);
    var k := I(IntKeysBefore(flat, p));
    RenumberKeys(flat, 0);
    RenumberValues(flat, 0);
    assert Values(r)[p] == r[p].1;
    forall j | p < j < |r| ensures r[j].0 != k {
      if flat[j].0.I? {
        IntKeysGrow(flat, p, j);
      }
    }
    assert LastWith(r, k, p);
    CollectGet(r);
  }

  /** String keys keep their first position and their last value; integer
      keys are renumbered in order across the inner arrays. */
  lemma MixedKeysExample()
    ensures Merged([[(S("a"), Int(1)), (I(10), Str("x"))],
                    [(I(20), Str("y")), (S("b"), Int(2))],
                    [(S("a"), Int(99)), (I(30), Str("z"))]])
      == [(S("a"), Int(99)), (I(0), Str("x")), (I(1), Str("y")), (S("b"), Int(2)), (I(2), Str("z"))]
  {
    var a0 := [(S("a"), Int(1)), (I(10), Str("x"))];
    var a1 := [(I(20), Str("y")), (S("b"), Int(2))];
    var a2 := [(S("a"), Int(99)), (I(30), Str("z"))];
    var flat := a0 + a1 + a2;
    assert Concat([a0, a1, a2]) == flat by {
      assert [a0, a1, a2][1..] == [a1, a2] && [a1, a2][1..] == [a2] && [a2][1..] == [];
      assert Concat([a2]) == a2;
      assert Concat([a1, a2]) == a1 + a2;
    }
    assert flat == [(S("a"), Int(1)), (I(10), Str("x")), (I(20), Str("y")), (S("b"), Int(2)), (S("a"), Int(99)), (I(30), Str("z"))];
    MixedKeysRenumber();
    MixedKeysCollect();
  }

  /** The int keys 10, 20, 30 of the concatenated example become 0, 1, 2. */
  lemma MixedKeysRenumber()
    ensures Renumber([(S("a"), Int(1)), (I(10), Str("x")), (I(20), Str("y")), (S("b"), Int(2)), (S("a"), Int(99)), (I(30), Str("z"))], 0)
      == [(S("a"), Int(1)), (I(0), Str("x")), (I(1), Str("y")), (S("b"), Int(2)), (S("a"), Int(99)), (I(2), Str("z"))]
  {
    var x0, x1, x2 := (S("a"), Int(1)), (I(10), Str("x")), (I(20), Str("y"));
    var x3, x4, x5 := (S("b"), Int(2)), (S("a"), Int(99)), (I(30), Str("z"));
    var flat := [x0, x1, x2, x3, x4, x5];
    assert Renumber([x5], 2) == [(I(2), Str("z"))] by { assert [x5][1..] == []; }
    assert Renumber([x4, x5], 2) == [x4, (I(2), Str("z"))] by { assert [x4, x5][1..] == [x5]; }
    assert Renumber([x3, x4, x5], 2) == [x3, x4, (I(2), Str("z"))] by { assert [x3, x4, x5][1..] == [x4, x5]; }
    assert Renumber([x2, x3, x4, x5], 1) == [(I(1), Str("y")), x3, x4, (I(2), Str("z"))] by {
      assert [x2, x3, x4, x5][1..] == [x3, x4, x5];
    }
    assert Renumber([x1, x2, x3, x4, x5], 0) == [(I(0), Str("x")), (I(1), Str("y")), x3, x4, (I(2), Str("z"))] by {
      assert [x1, x2, x3, x4, x5][1..] == [x2, x3, x4, x5];
    }
    assert flat[1..] == [x1, x2, x3, x4, x5];
  }

  lemma MixedKeysCollect()
    ensures Collect([(S("a"), Int(1)), (I(0), Str("x")), (I(1), Str("y")), (S("b"), Int(2)), (S("a"), Int(99)), (I(2), Str("z"))])
      == [(S("a"), Int(99)), (I(0), Str("x")), (I(1), Str("y")), (S("b"), Int(2)), (I(2), Str("z"))]
  {
    var x0, y1, y2 := (S("a"), Int(1)), (I(0), Str("x")), (I(1), Str("y"));
    var x3, x4, y5 := (S("b"), Int(2)), (S("a"), Int(99)), (I(2), Str("z"));
    var r := [x0, y1, y2, x3, x4, y5];
    assert r[..1] == [] + [x0];
    assert r[..2] == r[..1] + [y1];
    assert r[..3] == r[..2] + [y2];
    assert r[..4] == r[..3] + [x3];
    assert r[..5] == r[..4] + [x4];
    assert r == r[..5] + [y5];
    CollectSnoc([], x0);
    assert Collect(r[..1]) == [x0];
    CollectSnoc(r[..1], y1);
    assert Keys([x0]) == [x0.0];
    PutAppends([x0], y1.0, y1.1);
    assert Collect(r[..2]) == [x0, y1];
    CollectSnoc(r[..2], y2);
    assert Keys([x0, y1]) == [x0.0, y1.0];
    PutAppends([x0, y1], y2.0, y2.1);
    assert Collect(r[..3]) == [x0, y1, y2];
    CollectSnoc(r[..3], x3);
    assert Keys([x0, y1, y2]) == [x0.0, y1.0, y2.0];
    PutAppends([x0, y1, y2], x3.0, x3.1);
    assert Collect(r[..4]) == [x0, y1, y2, x3];
    CollectSnoc(r[..4], x4);
    assert Put([x0, y1, y2, x3], x4.0, x4.1) == [x4, y1, y2, x3];
    assert Keys([x4, y1, y2, x3]) == [x4.0, y1.0, y2.0, x3.0];
    PutAppends([x4, y1, y2, x3], y5.0, y5.1);
    CollectSnoc(r[..5], y5);
  }

  /** `iterable_flatten(preserve_keys)`: the inner pairs in order, under
      their own keys, or keyed 0, 1, 2, ... The values yielded are the inner
      values in order, whatever the keys; without keys they form a list;
      nothing is yielded exactly when every inner source is empty. */
  function IterableFlatten<V>(preserve: bool, arrays: seq<seq<(Key, V)>>): (out: seq<(Key, V)>)
    ensures Values(out) == Values(Concat(arrays))
    ensures preserve ==> out == Concat(arrays)
    ensures !preserve ==> IsList(out)
    ensures out == [] <==> forall a :: a in arrays ==> a == []
  {
    ConcatEmpty(arrays);
    if preserve then Concat(arrays) else List(Values(Concat(arrays)))
  }

  /** A concatenation is empty exactly when every piece is. */
  lemma ConcatEmpty<T>(ps: seq<seq<T>>)
    ensures Concat(ps) == [] <==> forall p :: p in ps ==> p == []
  {
    if Concat(ps) == [] {
      forall p | p in ps ensures p == [] {
        if p != [] {
          ConcatHas(ps, p, p[0]);
        }
      }
    } else {
      ConcatMember(ps, Concat(ps)[0]);
      var i :| 0 <= i < |ps| && Concat(ps)[0] in ps[i];
      assert ps[i] in ps && ps[i] != [];
    }
  }

  /** An item of one of the pieces is an item of the concatenation. */
  lemma {:induction false} ConcatHas<T>(ps: seq<seq<T>>, p: seq<T>, x: T)
    requires p in ps && x in p
    ensures x in Concat(ps)
    decreases |ps|
  {
    if ps[0] != p {
      assert p in ps[1..];
      ConcatHas(ps[1..], p, x);
    }
  }

  /** Two generators yielding keys 0, 1, 2: collected with their keys, the
      second overwrites the first; without keys all six values remain. */
  lemma GeneratorsExample()
    ensures var arrays := [List(["a", "b", "c"]), List(["x", "y", "z"])];
      && Collect(IterableFlatten(true, arrays)) == List(["x", "y", "z"])
      && IterableFlatten(false, arrays) == List(["a", "b", "c", "x", "y", "z"])
  {
    var a: seq<(Key, string)> := List(["a", "b", "c"]);
    var b: seq<(Key, string)> := List(["x", "y", "z"]);
    var ps: seq<seq<(Key, string)>> := [b];
    assert [a, b][1..] == ps && ps[1..] == [];
    assert Concat(ps) == b;
    assert Concat([a, b]) == a + b;
    assert Values(a + b) == ["a", "b", "c", "x", "y", "z"];
    OverwriteExample(a, b);
  }

  lemma OverwriteExample(a: seq<(Key, string)>, b: seq<(Key, string)>)
    requires a == List(["a", "b", "c"]) && b == List(["x", "y", "z"])
    ensures Collect(a + b) == b
  {
    CollectOfMap(a);
    var ab := a + b;
    assert ab[..5] == ab[..4] + [ab[4]] && ab[..4] == a + [b[0]] && ab == ab[..5] + [ab[5]];
    CollectSnoc(a, b[0]);
    assert Put(a, b[0].0, b[0].1) == [b[0], a[1], a[2]];
    CollectSnoc(ab[..4], ab[4]);
    assert Put([b[0], a[1], a[2]], b[1].0, b[1].1) == [b[0], b[1], a[2]];
    CollectSnoc(ab[..5], ab[5]);
    var c := [b[0], b[1], a[2]];
    assert a[2].0 == I(2) && b[0].0 == I(0) && b[1].0 == I(1) && b[2].0 == I(2);
    assert Put([a[2]], b[2].0, b[2].1) == [b[2]];
    assert c[1..] == [b[1], a[2]] && c[1..][1..] == [a[2]];
    assert Put(c, b[2].0, b[2].1) == [b[0], b[1], b[2]] == b;
  }

  /** How many outer elements `take(n)` over the flattened sequence starts:
      it stops pulling as soon as n items have been yielded. */
  function Needed<T>(arrays: seq<seq<T>>, n: nat): (m: nat)
    ensures m <= |arrays|
  {
    if n == 0 || arrays == [] then 0
    else if n <= |arrays[0]| then 1
    else 1 + Needed(arrays[1..], n - |arrays[0]|)
  }

  /** No over-read: the outer elements before the last one pulled hold fewer
      than n items, and the ones pulled hold at least n unless the outer
      sequence ran out. */
  lemma {:induction false} NeededMinimal<T>(arrays: seq<seq<T>>, n: nat)
    ensures var m := Needed(arrays, n);
      && (m > 0 ==> |Concat(arrays[..m - 1])| < n)
      && (m < |arrays| ==> n <= |Concat(arrays[..m])|)
    decreases |arrays|
  {
    var m := Needed(arrays, n);
    if n > 0 && arrays != [] {
      ConcatSplit(arrays);
      if n <= |arrays[0]| {
        assert arrays[..1] == [arrays[0]] && arrays[..0] == [];
        ConcatSplit(arrays[..1]);
      } else {
        var rest := arrays[1..];
        NeededMinimal(rest, n - |arrays[0]|);
        assert arrays[..m] == [arrays[0]] + rest[..m - 1];
        ConcatSplit(arrays[..m]);
        if m > 1 {
          assert arrays[..m - 1] == [arrays[0]] + rest[..m - 2];
          ConcatSplit(arrays[..m - 1]);
        } else {
          assert arrays[..0] == [];
        }
      }
    }
  }

  lemma ConcatSplit<T>(ps: seq<seq<T>>)
    requires ps != []
    ensures Concat(ps) == ps[0] + Concat(ps[1..])
  {
  }

  /** `take(n)` over `iterable_flatten`: the first n items of the inner
      sequences in order, with their own keys, and an outer element is
      pulled only when the items before it were not enough. */
  method FlattenTake<V>(outer: seq<seq<(Key, V)>>, n: nat) returns (taken: seq<(Key, V)>, pulled: nat)
    ensures |taken| == if n <= |Concat(outer)| then n else |Concat(outer)|
    ensures taken == Concat(outer)[..|taken|]
    ensures pulled == Needed(outer, n)
  {
    taken := [];
    pulled := 0;
    while |taken| < n && pulled < |outer|
      invariant pulled <= |outer| && |taken| <= n
      invariant |taken| < n ==> taken == Concat(outer[..pulled])
      invariant |taken| == n ==> n <= |Concat(outer)| && taken == Concat(outer)[..n]
      invariant Needed(outer, n) == pulled + if |taken| < n then Needed(outer[pulled..], n - |taken|) else 0
    {
      ghost var before := taken;
      taken := TakeInner(taken, outer[pulled], n);
      PullStep(outer, pulled, before, n);
      pulled := pulled + 1;
    }
    if |taken| < n {
      assert outer[..pulled] == outer;
    }
  }

  /** The items of one inner sequence, one at a time, until n have been
      taken in all. */
  method TakeInner<V>(taken: seq<(Key, V)>, inner: seq<(Key, V)>, n: nat) returns (taken': seq<(Key, V)>)
    requires |taken| < n
    ensures taken' == taken + inner[..if n - |taken| <= |inner| then n - |taken| else |inner|]
  {
    taken' := taken;
    var j := 0;
    while j < |inner| && |taken'| < n
      invariant 0 <= j <= |inner| && taken' == taken + inner[..j] && |taken'| <= n
    {
      taken' := taken' + [inner[j]];
      j := j + 1;
      assert inner[..j] == inner[..j - 1] + [inner[j - 1]];
    }
  }

  /** One outer element pulled: the items taken so far are either still
      short of n and then all of the outer elements pulled, or exactly the
      first n items; the pull count follows Needed. */
  lemma PullStep<V>(outer: seq<seq<(Key, V)>>, p: nat, before: seq<(Key, V)>, n: nat)
    requires p < |outer| && |before| < n && before == Concat(outer[..p])
    ensures var k := if n - |before| <= |outer[p]| then n - |before| else |outer[p]|;
      var after := before + outer[p][..k];
      && (|after| < n ==> after == Concat(outer[..p + 1]))
      && (|after| == n ==> n <= |Concat(outer)| && after == Concat(outer)[..n])
      && Needed(outer[p..], n - |before|) == 1 + if |after| < n then Needed(outer[p + 1..], n - |after|) else 0
  {
    var inner := outer[p];
    ConcatAppend(outer[..p], [inner]);
    assert outer[..p + 1] == outer[..p] + [inner];
    assert Concat([inner]) == inner by {
      assert [inner][1..] == [];
    }
    ConcatAppend(outer[..p], outer[p..]);
    assert outer[..p] + outer[p..] == outer;
    ConcatSplit(outer[p..]);
    assert outer[p..][1..] == outer[p + 1..];
  }

  /** Taking 12 items from five outer elements, the first four holding three
      items each, never pulls the fifth. */
  lemma TakeTwelveExample<T>(outer: seq<seq<T>>)
    requires |outer| == 5 && forall i :: 0 <= i < 4 ==> |outer[i]| == 3
    ensures Needed(outer, 12) == 4
  {
    var o1 := outer[1..];
    var o2 := o1[1..];
    var o3 := o2[1..];
    assert o1[0] == outer[1] && o2[0] == outer[2] && o3[0] == outer[3];
    assert Needed(o3, 3) == 1;
    assert Needed(o2, 6) == 2;
    assert Needed(o1, 9) == 3;
  }
}
