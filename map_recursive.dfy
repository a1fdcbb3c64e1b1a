/** `array_map_recursive(f)` and `array_map_recursive_with_path(f)`: map the
    leaves of a nested array, recursing into every value that is itself an
    array and keeping every key at every level. The `_with_path` variant
    hands f the keys from the root down to the leaf as well. */
module MapRecursive {
  import opened PhpArray

  /** A nested array: a leaf value, or an array of nested values. */
  datatype Tree<V> = Leaf(value: V) | Node(children: seq<(Key, Tree<V>)>)

  /** Every leaf mapped by f, every key kept. */
  function MapTree<V, W>(f: V -> W, t: Tree<V>): (u: Tree<W>)
    decreases t
  {
    match t
    case Leaf(v) => Leaf(f(v))
    case Node(cs) => Node(seq(|cs|, i requires 0 <= i < |cs| => (cs[i].0, MapTree(f, cs[i].1))))
  }

  /** Every leaf mapped by f, which is also handed the leaf's path: `path`
      followed by the keys down to the leaf. */
  function MapWithPath<V, W>(f: (V, seq<Key>) -> W, t: Tree<V>, path: seq<Key>): (u: Tree<W>)
    decreases t
  {
    match t
    case Leaf(v) => Leaf(f(v, path))
    case Node(cs) =>
      Node(seq(|cs|, i requires 0 <= i < |cs| => (cs[i].0, MapWithPath(f, cs[i].1, path + [cs[i].0]))))
  }

  /** `array_map_recursive(f)` on an array: the same nesting and keys at
      every level, and mapping without paths is mapping with paths the
      callback ignores. */
  function ArrayMapRecursive<V, W>(f: V -> W, a: seq<(Key, Tree<V>)>): (r: seq<(Key, Tree<W>)>)
    ensures SameShape(Node(a), Node(r))
    ensures r == ArrayMapRecursiveWithPath((v: V, p: seq<Key>) => f(v), a)
  {
    MapKeepsShape(f, Node(a));
    MapIsMapWithPath(f, Node(a), []);
    MapTree(f, Node(a)).children
  }

  /** `array_map_recursive_with_path(f)` on an array: paths start at the
      array's own keys; the nesting and keys are kept, and the leaves are
      f of each (leaf, path), in the order the callback meets them. */
  function ArrayMapRecursiveWithPath<V, W>(f: (V, seq<Key>) -> W, a: seq<(Key, Tree<V>)>): (r: seq<(Key, Tree<W>)>)
    ensures SameShape(Node(a), Node(r))
    ensures Leaves(Node(r), []) == MapLeaves(f, Leaves(Node(a), []))
  {
    MapWithPathKeepsShape(f, Node(a), []);
    MapWithPathLeaves(f, Node(a), []);
    MapWithPath(f, Node(a), []).children
  }

  /** The leaves under t with their paths, depth first in key order: the
      order in which the callback is called, once per leaf. Every path
      extends the path of t. */
  function Leaves<V>(t: Tree<V>, path: seq<Key>): (ls: seq<(seq<Key>, V)>)
    ensures forall i :: 0 <= i < |ls| ==> path <= ls[i].0
    decreases t
  {
    match t
    case Leaf(v) => [(path, v)]
    case Node(cs) =>
      var pieces := seq(|cs|, i requires 0 <= i < |cs| => Leaves(cs[i].1, path + [cs[i].0]));
      ConcatExtends(pieces, path);
      Concat(pieces)
  }

  /** Pieces whose paths all extend `path` concatenate to leaves whose paths
      extend it. */
  lemma {:induction false} ConcatExtends<V>(pieces: seq<seq<(seq<Key>, V)>>, path: seq<Key>)
    requires forall i, j :: 0 <= i < |pieces| && 0 <= j < |pieces[i]| ==> path <= pieces[i][j].0
    ensures forall j :: 0 <= j < |Concat(pieces)| ==> path <= Concat(pieces)[j].0
    decreases |pieces|
  {
    if pieces != [] {
      ConcatExtends(pieces[1..], path);
      var c := Concat(pieces);
      assert c == pieces[0] + Concat(pieces[1..]);
      forall j | 0 <= j < |c| ensures path <= c[j].0 {
        if j >= |pieces[0]| {
          assert c[j] == Concat(pieces[1..])[j - |pieces[0]|];
        }
      }
    }
  }

  /** Same structure: leaves where t has leaves, and arrays with the same
      keys in the same order where t has arrays. */
  predicate SameShape<V, W>(t: Tree<V>, u: Tree<W>)
    decreases t
  {
    match t
    case Leaf(_) => u.Leaf?
    case Node(cs) =>
      && u.Node? && |u.children| == |cs|
      && forall i :: 0 <= i < |cs| ==> u.children[i].0 == cs[i].0 && SameShape(cs[i].1, u.children[i].1)
  }

  /** Mapping keeps the structure and every key, at every level. */
  lemma {:induction false} MapKeepsShape<V, W>(f: V -> W, t: Tree<V>)
    ensures SameShape(t, MapTree(f, t))
    decreases t
  {
    if t.Node? {
      forall i | 0 <= i < |t.children| ensures SameShape(t.children[i].1, MapTree(f, t.children[i].1)) {
        MapKeepsShape(f, t.children[i].1);
      }
    }
  }

  /** With paths, too, the structure and every key are kept. */
  lemma {:induction false} MapWithPathKeepsShape<V, W>(f: (V, seq<Key>) -> W, t: Tree<V>, path: seq<Key>)
    ensures SameShape(t, MapWithPath(f, t, path))
    decreases t
  {
    if t.Node? {
      var cs := t.children;
      forall i | 0 <= i < |cs| ensures SameShape(cs[i].1, MapWithPath(f, cs[i].1, path + [cs[i].0])) {
        MapWithPathKeepsShape(f, cs[i].1, path + [cs[i].0]);
      }
    }
  }

  /** Without paths is with paths that are ignored. */
  lemma {:induction false} MapIsMapWithPath<V, W>(f: V -> W, t: Tree<V>, path: seq<Key>)
    ensures MapTree(f, t) == MapWithPath((v: V, p: seq<Key>) => f(v), t, path)
    decreases t
  {
    if t.Node? {
      var cs := t.children;
      forall i | 0 <= i < |cs| ensures MapTree(f, cs[i].1) == MapWithPath((v: V, p: seq<Key>) => f(v), cs[i].1, path + [cs[i].0]) {
        MapIsMapWithPath(f, cs[i].1, path + [cs[i].0]);
      }
    }
  }

  /** Each leaf with its value replaced by f of (value, path). */
  function MapLeaves<V, W>(f: (V, seq<Key>) -> W, ls: seq<(seq<Key>, V)>): (r: seq<(seq<Key>, W)>)
    ensures |r| == |ls|
  {
    seq(|ls|, j requires 0 <= j < |ls| => (ls[j].0, f(ls[j].1, ls[j].0)))
  }

  /** The callback sees every leaf once, in depth-first key order, with its
      full path, and its answer becomes that leaf. */
  lemma {:induction false} MapWithPathLeaves<V, W>(f: (V, seq<Key>) -> W, t: Tree<V>, path: seq<Key>)
    ensures Leaves(MapWithPath(f, t, path), path) == MapLeaves(f, Leaves(t, path))
    decreases t
  {
    if t.Node? {
      var cs := t.children;
      var u := MapWithPath(f, t, path);
      var before := seq(|cs|, i requires 0 <= i < |cs| => Leaves(cs[i].1, path + [cs[i].0]));
      var after := seq(|cs|, i requires 0 <= i < |cs| => Leaves(u.children[i].1, path + [u.children[i].0]));
      forall i | 0 <= i < |cs| ensures after[i] == MapLeaves(f, before[i]) {
        MapWithPathLeaves(f, cs[i].1, path + [cs[i].0]);
      }
      ConcatMapLeaves(f, before, after);
    }
  }

  /** Mapping the leaves piece by piece is mapping the whole list. */
  lemma {:induction false} ConcatMapLeaves<V, W>(f: (V, seq<Key>) -> W, ps: seq<seq<(seq<Key>, V)>>, qs: seq<seq<(seq<Key>, W)>>)
    requires |qs| == |ps| && forall i :: 0 <= i < |ps| ==> qs[i] == MapLeaves(f, ps[i])
    ensures Concat(qs) == MapLeaves(f, Concat(ps))
    decreases |ps|
  {
    if ps != [] {
      ConcatMapLeaves(f, ps[1..], qs[1..]);
      MapLeavesAppend(f, ps[0], Concat(ps[1..]));
    }
  }

  lemma MapLeavesAppend<V, W>(f: (V, seq<Key>) -> W, a: seq<(seq<Key>, V)>, b: seq<(seq<Key>, V)>)
    ensures MapLeaves(f, a + b) == MapLeaves(f, a) + MapLeaves(f, b)
  {
  }

  /** Every path handed to the callback starts with the path of the array
      it was called on and goes at least one key deeper. */
  lemma {:induction false} LeafPaths<V>(t: Tree<V>, path: seq<Key>)
    requires t.Node?
    ensures forall l :: l in Leaves(t, path) ==> |l.0| > |path| && l.0[..|path|] == path
    decreases t
  {
    var cs := t.children;
    var pieces := seq(|cs|, i requires 0 <= i < |cs| => Leaves(cs[i].1, path + [cs[i].0]));
    forall l | l in Leaves(t, path) ensures |l.0| > |path| && l.0[..|path|] == path {
      ConcatMember(pieces, l);
      var i :| 0 <= i < |pieces| && l in pieces[i];
      var p := path + [cs[i].0];
      if cs[i].1.Node? {
        LeafPaths(cs[i].1, p);
        assert l.0[..|p|] == p;
        assert l.0[..|path|] == p[..|path|];
      } else {
        assert l.0 == p;
      }
    }
  }

  /** An empty array maps to an empty array and the callback is never
      called. */
  lemma EmptyArray<V, W>(f: (V, seq<Key>) -> W)
    ensures ArrayMapRecursiveWithPath(f, []) == [] && Leaves(Tree<V>.Node([]), []) == []
  {
    assert Concat<(seq<Key>, V)>([]) == [];
  }

  /** `['a' => 1, 'b' => ['c' => 2, 10 => [3]]]`: the leaves are visited
      with paths `['a']`, `['b', 'c']` and `['b', 10, 0]`, in that order. */
  lemma PathExample()
    ensures Leaves(Node(Nested()), []) == [([S("a")], 1), ([S("b"), S("c")], 2), ([S("b"), I(10), I(0)], 3)]
  {
    var inner: seq<(Key, Tree<int>)> := [(I(0), Leaf(3))];
    var b: seq<(Key, Tree<int>)> := [(S("c"), Leaf(2)), (I(10), Node(inner))];
    var l3 := ([S("b"), I(10), I(0)], 3);
    var l2 := ([S("b"), S("c")], 2);
    var l1 := ([S("a")], 1);
    var p3 := seq(|inner|, i requires 0 <= i < |inner| => Leaves(inner[i].1, [S("b"), I(10)] + [inner[i].0]));
    assert [S("b"), I(10)] + [I(0)] == l3.0;
    assert p3 == [[l3]];
    assert Leaves(Node(inner), [S("b"), I(10)]) == [l3] by {
      assert Concat(p3) == [l3] + Concat(p3[1..]);
    }
    var p2 := seq(|b|, i requires 0 <= i < |b| => Leaves(b[i].1, [S("b")] + [b[i].0]));
    assert [S("b")] + [S("c")] == l2.0;
    assert [S("b")] + [I(10)] == [S("b"), I(10)];
    assert p2 == [[l2], [l3]];
    assert Leaves(Node(b), [S("b")]) == [l2, l3] by {
      assert p2[1..][1..] == [];
      assert Concat(p2) == [l2] + Concat(p2[1..]);
    }
    var a := Nested();
    var p1 := seq(|a|, i requires 0 <= i < |a| => Leaves(a[i].1, [] + [a[i].0]));
    assert [] + [S("a")] == l1.0;
    assert [] + [S("b")] == [S("b")];
    assert p1 == [[l1], [l2, l3]];
    assert p1[1..][1..] == [];
    assert Concat(p1) == [l1] + Concat(p1[1..]);
  }

  /** Multiplying each leaf of the same array by ten keeps every key,
      the int key 10 included. */
  lemma TimesTenExample()
    ensures ArrayMapRecursive(Ten, Nested())
         == [(S("a"), Leaf(10)), (S("b"), Node([(S("c"), Leaf(20)), (I(10), Node([(I(0), Leaf(30))]))]))]
  {
    var inner: seq<(Key, Tree<int>)> := [(I(0), Leaf(3))];
    var b: seq<(Key, Tree<int>)> := [(S("c"), Leaf(2)), (I(10), Node(inner))];
    var inner' := [(I(0), Leaf(30))];
    var b' := [(S("c"), Leaf(20)), (I(10), Node(inner'))];
    assert MapTree(Ten, Node(inner)) == Node(inner');
    assert MapTree(Ten, Node(b)).children[1] == (I(10), Node(inner'));
    assert MapTree(Ten, Node(b)) == Node(b');
  }

  function Ten(v: int): int {
    v * 10
  }

  function Nested(): (a: seq<(Key, Tree<int>)>)
  {
    [(S("a"), Leaf(1)), (S("b"), Node([(S("c"), Leaf(2)), (I(10), Node([(I(0), Leaf(3))]))]))]
  }
}
