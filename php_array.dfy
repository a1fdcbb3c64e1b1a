/** PHP's ordered array: a sequence of (key, value) pairs, plus the error and
    option types shared by every combinator. */
module PhpArray {

  /** An array key is either an integer or a string. */
  datatype Key = I(i: int) | S(s: string)

  datatype Option<T> = None | Some(value: T)

  /** The exceptions the combinators raise. */
  datatype Error = InvalidArgument | ValueError | TypeError

  datatype Result<T> = Ok(value: T) | Err(error: Error)

  /** The scalar values the examples and the default callbacks work on. */
  datatype Value = Bool(b: bool) | Int(n: int) | Str(s: string) | Null

  function Keys<V>(a: seq<(Key, V)>): (ks: seq<Key>)
    ensures |ks| == |a|
    ensures forall i :: 0 <= i < |a| ==> ks[i] == a[i].0
  {
    seq(|a|, i requires 0 <= i < |a| => a[i].0)
  }

  function Values<V>(a: seq<(Key, V)>): (vs: seq<V>)
    ensures |vs| == |a|
    ensures forall i :: 0 <= i < |a| ==> vs[i] == a[i].1
  {
    seq(|a|, i requires 0 <= i < |a| => a[i].1)
  }

  /** A real PHP array never holds the same key twice. */
  predicate IsMap<V>(a: seq<(Key, V)>) {
    forall i, j :: 0 <= i < j < |a| ==> a[i].0 != a[j].0
  }

  predicate Distinct<T(==)>(xs: seq<T>) {
    forall i, j :: 0 <= i < j < |xs| ==> xs[i] != xs[j]
  }

  /** A list: the values keyed 0, 1, 2, ... */
  function List<V>(vs: seq<V>): (a: seq<(Key, V)>)
    ensures |a| == |vs| && IsMap(a) && Values(a) == vs
    ensures forall i :: 0 <= i < |a| ==> a[i] == (I(i), vs[i])
  {
    seq(|vs|, i requires 0 <= i < |vs| => (I(i), vs[i]))
  }

  predicate IsList<V>(a: seq<(Key, V)>) {
    forall i :: 0 <= i < |a| ==> a[i].0 == I(i)
  }

  /** `$a[$k]`, or None when the key is absent. */
  function Get<V>(a: seq<(Key, V)>, k: Key): (r: Option<V>)
    ensures r.None? <==> k !in Keys(a)
    ensures r.Some? ==> exists i :: 0 <= i < |a| && a[i] == (k, r.value)
  {
    if a == [] then None
    else if a[0].0 == k then Some(a[0].1)
    else Get(a[1..], k)
  }

  lemma {:induction false} GetAt<V>(a: seq<(Key, V)>, i: nat)
    requires IsMap(a) && i < |a|
    ensures Get(a, a[i].0) == Some(a[i].1)
  {
    if i > 0 {
      assert a[1..][i - 1] == a[i];
      GetAt(a[1..], i - 1);
    }
  }

  /** `$a[$k] = $v`: an existing key keeps its position and gets the new
      value; a new key goes at the end. */
  function Put<V>(a: seq<(Key, V)>, k: Key, v: V): (r: seq<(Key, V)>)
  {
    if a == [] then [(k, v)]
    else if a[0].0 == k then [(k, v)] + a[1..]
    else [a[0]] + Put(a[1..], k, v)
  }

  lemma KeysConcat<V>(a: seq<(Key, V)>, b: seq<(Key, V)>)
    ensures Keys(a + b) == Keys(a) + Keys(b)
  {
  }

  /** An assignment keeps every key where it was, and a new key lands at
      the end. */
  lemma {:induction false} PutShape<V>(a: seq<(Key, V)>, k: Key, v: V)
    ensures var r := Put(a, k, v);
      && (k in Keys(a) ==> |r| == |a|)
      && (k !in Keys(a) ==> |r| == |a| + 1 && r[|a|] == (k, v))
      && forall i :: 0 <= i < |a| ==> r[i].0 == a[i].0
  {
    if a != [] && a[0].0 != k {
      var rest := Put(a[1..], k, v);
      PutShape(a[1..], k, v);
      var r := Put(a, k, v);
      assert r == [a[0]] + rest;
      assert k in Keys(a) <==> k in Keys(a[1..]) by {
        if k in Keys(a) {
          var j :| 0 <= j < |a| && a[j].0 == k;
          assert a[1..][j - 1].0 == k;
        }
        if k in Keys(a[1..]) {
          var j :| 0 <= j < |a| - 1 && a[1..][j].0 == k;
          assert a[j + 1].0 == k;
        }
      }
      forall i | 0 <= i < |a| ensures r[i].0 == a[i].0 {
        if i > 0 {
          assert r[i] == rest[i - 1] && a[i] == a[1..][i - 1];
        }
      }
    }
  }

  lemma PutKeys<V>(a: seq<(Key, V)>, k: Key, v: V)
    ensures Keys(Put(a, k, v)) == if k in Keys(a) then Keys(a) else Keys(a) + [k]
  {
    PutShape(a, k, v);
  }

  /** Reading back after an assignment: the assigned key holds the new value,
      every other key is untouched, and the result is still a map. */
  lemma {:induction false} PutGet<V>(a: seq<(Key, V)>, k: Key, v: V, k': Key)
    ensures Get(Put(a, k, v), k') == if k' == k then Some(v) else Get(a, k')
  {
    if a != [] && a[0].0 != k {
      PutGet(a[1..], k, v, k');
    }
  }

  lemma {:induction false} PutIsMap<V>(a: seq<(Key, V)>, k: Key, v: V)
    requires IsMap(a)
    ensures IsMap(Put(a, k, v))
  {
    PutKeys(a, k, v);
    var r := Put(a, k, v);
    assert Keys(r) == if k in Keys(a) then Keys(a) else Keys(a) + [k];
    forall i, j | 0 <= i < j < |r| ensures r[i].0 != r[j].0 {
      assert Keys(r)[i] == r[i].0 && Keys(r)[j] == r[j].0;
      if j == |a| {
        assert k !in Keys(a) && Keys(r)[j] == k && Keys(r)[i] == Keys(a)[i];
      } else {
        assert Keys(r)[i] == a[i].0 && Keys(r)[j] == a[j].0;
      }
    }
  }

  /** Keys in order of first appearance, each once. */
  function Dedup(ks: seq<Key>): (d: seq<Key>)
    decreases |ks|
  {
    if ks == [] then []
    else
      var d := Dedup(ks[..|ks| - 1]);
      if ks[|ks| - 1] in d then d else d + [ks[|ks| - 1]]
  }

  lemma {:induction false} DedupProps(ks: seq<Key>)
    ensures Distinct(Dedup(ks))
    ensures forall k :: k in Dedup(ks) <==> k in ks
    decreases |ks|
  {
    if ks != [] {
      var init := ks[..|ks| - 1];
      DedupProps(init);
      assert ks == init + [ks[|ks| - 1]];
    }
  }

  /** Keys that are already distinct are left as they are. */
  lemma {:induction false} DedupDistinct(ks: seq<Key>)
    requires Distinct(ks)
    ensures Dedup(ks) == ks
    decreases |ks|
  {
    if ks != [] {
      var init := ks[..|ks| - 1];
      DedupDistinct(init);
      assert ks[|ks| - 1] !in init;
      assert init + [ks[|ks| - 1]] == ks;
    }
  }

  /** Position of the first occurrence of k. */
  function FirstIndex(ks: seq<Key>, k: Key): (i: nat)
    requires k in ks
    ensures i < |ks| && ks[i] == k && k !in ks[..i]
  {
    if ks[0] == k then 0 else 1 + FirstIndex(ks[1..], k)
  }

  lemma {:induction false} FirstIndexAppend(ks: seq<Key>, x: Key, k: Key)
    requires k in ks
    ensures FirstIndex(ks + [x], k) == FirstIndex(ks, k)
  {
    if ks[0] != k {
      assert (ks + [x])[1..] == ks[1..] + [x];
      FirstIndexAppend(ks[1..], x, k);
    }
  }

  /** The deduplicated keys are ordered by where each first appears. */
  lemma {:induction false} DedupFirstSeen(ks: seq<Key>)
    ensures forall i, j :: 0 <= i < j < |Dedup(ks)| ==>
      Dedup(ks)[i] in ks && Dedup(ks)[j] in ks &&
      FirstIndex(ks, Dedup(ks)[i]) < FirstIndex(ks, Dedup(ks)[j])
    decreases |ks|
  {
    if ks != [] {
      var init := ks[..|ks| - 1];
      var x := ks[|ks| - 1];
      assert ks == init + [x];
      DedupFirstSeen(init);
      DedupProps(init);
      var d := Dedup(ks);
      forall i, j | 0 <= i < j < |d|
        ensures d[i] in ks && d[j] in ks && FirstIndex(ks, d[i]) < FirstIndex(ks, d[j])
      {
        var d0 := Dedup(init);
        assert d[i] in d0;
        FirstIndexAppend(init, x, d[i]);
        if j < |d0| {
          FirstIndexAppend(init, x, d[j]);
        } else {
          assert d[j] == x && x !in init;
          assert FirstIndex(ks, d[i]) < |init| by {
            var f := FirstIndex(ks, d[i]);
            assert f == FirstIndex(init, d[i]);
          }
          assert FirstIndex(ks, x) == |init|;
        }
      }
    } else {
      assert Dedup(ks) == [];
    }
  }

  /** `iterator_to_array` / `collect`: every yielded pair is assigned in turn,
      so a repeated key keeps its first position and its last value. */
  function Collect<V>(ps: seq<(Key, V)>): (a: seq<(Key, V)>)
    decreases |ps|
  {
    if ps == [] then []
    else Put(Collect(ps[..|ps| - 1]), ps[|ps| - 1].0, ps[|ps| - 1].1)
  }

  /** Collecting one more pair assigns it into what was collected so far. */
  lemma CollectSnoc<V>(ps: seq<(Key, V)>, x: (Key, V))
    ensures Collect(ps + [x]) == Put(Collect(ps), x.0, x.1)
  {
    assert (ps + [x])[..|ps|] == ps;
  }

  /** Index of the last pair with key k. */
  predicate LastWith<V>(ps: seq<(Key, V)>, k: Key, i: int) {
    0 <= i < |ps| && ps[i].0 == k && forall j :: i < j < |ps| ==> ps[j].0 != k
  }

  /** Collecting yields a map whose keys are the yielded keys in order of
      first appearance, and whose value for each key is the last one yielded
      with that key. */
  lemma {:induction false} CollectSpec<V>(ps: seq<(Key, V)>)
    ensures IsMap(Collect(ps))
    ensures Keys(Collect(ps)) == Dedup(Keys(ps))
    ensures forall k, i :: LastWith(ps, k, i) ==> Get(Collect(ps), k) == Some(ps[i].1)
    ensures forall k :: k !in Keys(ps) ==> Get(Collect(ps), k) == None
    decreases |ps|
  {
    CollectGet(ps);
    if ps != [] {
      var init := ps[..|ps| - 1];
      var last := ps[|ps| - 1];
      CollectSpec(init);
      var c := Collect(init);
      PutIsMap(c, last.0, last.1);
      PutKeys(c, last.0, last.1);
      assert Keys(init) == Keys(ps)[..|ps| - 1];
    }
  }

  /** The value collected under each key is the last one yielded with it. */
  lemma {:induction false} CollectGet<V>(ps: seq<(Key, V)>)
    ensures forall k, i :: LastWith(ps, k, i) ==> Get(Collect(ps), k) == Some(ps[i].1)
    ensures forall k :: k !in Keys(ps) ==> Get(Collect(ps), k) == None
    decreases |ps|
  {
    if ps != [] {
      var init := ps[..|ps| - 1];
      var last := ps[|ps| - 1];
      CollectGet(init);
      var c := Collect(init);
      forall k, i | LastWith(ps, k, i) ensures Get(Collect(ps), k) == Some(ps[i].1) {
        PutGet(c, last.0, last.1, k);
        if i < |ps| - 1 {
          assert LastWith(init, k, i);
        }
      }
      forall k | k !in Keys(ps) ensures Get(Collect(ps), k) == None {
        PutGet(c, last.0, last.1, k);
        assert Keys(ps) == Keys(init) + [last.0];
      }
    }
  }

  /** On a real map, collecting changes nothing. */
  lemma {:induction false} CollectOfMap<V>(a: seq<(Key, V)>)
    requires IsMap(a)
    ensures Collect(a) == a
    decreases |a|
  {
    if a != [] {
      var init := a[..|a| - 1];
      assert IsMap(init);
      CollectOfMap(init);
      PutAppends(init, a[|a| - 1].0, a[|a| - 1].1);
      assert init + [a[|a| - 1]] == a;
    }
  }

  lemma {:induction false} PutAppends<V>(a: seq<(Key, V)>, k: Key, v: V)
    requires k !in Keys(a)
    ensures Put(a, k, v) == a + [(k, v)]
    decreases |a|
  {
    if a != [] {
      assert Keys(a) == [a[0].0] + Keys(a[1..]);
      PutAppends(a[1..], k, v);
      assert a == [a[0]] + a[1..];
    }
  }

  function Concat<T>(pieces: seq<seq<T>>): seq<T>
    decreases |pieces|
  {
    if pieces == [] then [] else pieces[0] + Concat(pieces[1..])
  }

  lemma {:induction false} ConcatAppend<T>(ps: seq<seq<T>>, qs: seq<seq<T>>)
    ensures Concat(ps + qs) == Concat(ps) + Concat(qs)
    decreases |ps|
  {
    if ps != [] {
      ConcatAppend(ps[1..], qs);
      assert (ps + qs)[0] == ps[0];
      assert (ps + qs)[1..] == ps[1..] + qs;
      assert Concat(ps + qs) == ps[0] + Concat(ps[1..] + qs);
    } else {
      assert ps + qs == qs;
    }
  }

  /** Every item of a concatenation comes from one of the pieces. */
  lemma {:induction false} ConcatMember<T>(ps: seq<seq<T>>, x: T)
    requires x in Concat(ps)
    ensures exists i :: 0 <= i < |ps| && x in ps[i]
    decreases |ps|
  {
    if x !in ps[0] {
      ConcatMember(ps[1..], x);
      var i :| 0 <= i < |ps[1..]| && x in ps[1..][i];
      assert x in ps[i + 1];
    }
  }

  /** Consecutive pieces of `size` items; only the last may be shorter. */
  function Pieces<T>(xs: seq<T>, size: nat): seq<seq<T>>
    requires size > 0
    decreases |xs|
  {
    if xs == [] then []
    else if |xs| <= size then [xs]
    else [xs[..size]] + Pieces(xs[size..], size)
  }

  /** The pieces laid end to end give back the input; each holds `size`
      items except the last, which holds between 1 and `size`. */
  lemma {:induction false} PiecesSpec<T>(xs: seq<T>, size: nat)
    requires size > 0
    ensures var ps := Pieces(xs, size);
      && Concat(ps) == xs
      && (ps == [] <==> xs == [])
      && (forall i :: 0 <= i < |ps| - 1 ==> |ps[i]| == size)
      && (ps != [] ==> 1 <= |ps[|ps| - 1]| <= size)
    decreases |xs|
  {
    if |xs| > size {
      PiecesSpec(xs[size..], size);
      var ps := Pieces(xs, size);
      assert ps[1..] == Pieces(xs[size..], size);
      assert xs == xs[..size] + xs[size..];
    }
  }

  /** Piece i starts at item i * size. */
  lemma {:induction false} PiecesAt<T>(xs: seq<T>, size: nat, i: nat)
    requires size > 0 && i < |Pieces(xs, size)|
    ensures i * size < |xs|
    ensures Pieces(xs, size)[i] == xs[i * size..if i * size + size <= |xs| then i * size + size else |xs|]
    decreases |xs|
  {
    if i > 0 {
      var rest := xs[size..];
      assert Pieces(xs, size) == [xs[..size]] + Pieces(rest, size);
      PiecesAt(rest, size, i - 1);
      var lo := (i - 1) * size;
      assert i * size == lo + size;
      var hi := if lo + size <= |rest| then lo + size else |rest|;
      assert Pieces(xs, size)[i] == rest[lo..hi];
      assert |rest| == |xs| - size && lo <= hi <= |rest|;
      assert lo + size <= hi + size <= |xs|;
      assert forall q :: lo <= q < hi ==> rest[q] == xs[q + size];
      assert rest[lo..hi] == xs[lo + size..hi + size];
    }
  }

  /** m full pieces and a remainder r (0 <= r < size) give m pieces, plus
      one more when r > 0. */
  lemma {:induction false} PiecesCount<T>(xs: seq<T>, size: nat, m: nat, r: nat)
    requires 0 <= r < size && |xs| == m * size + r
    ensures |Pieces(xs, size)| == m + (if r > 0 then 1 else 0)
    decreases m
  {
    if m > 0 && |xs| > size {
      assert |xs[size..]| == (m - 1) * size + r;
      PiecesCount(xs[size..], size, m - 1, r);
    }
  }

  /** Integer keys renumbered from `next` on in order; string keys kept. */
  function Renumber<V>(a: seq<(Key, V)>, next: int): (r: seq<(Key, V)>)
    ensures |r| == |a|
    decreases |a|
  {
    if a == [] then []
    else if a[0].0.S? then [a[0]] + Renumber(a[1..], next)
    else [(I(next), a[0].1)] + Renumber(a[1..], next + 1)
  }

  /** Renumbering changes keys only. */
  lemma {:induction false} RenumberValues<V>(a: seq<(Key, V)>, next: int)
    ensures Values(Renumber(a, next)) == Values(a)
    decreases |a|
  {
    if a != [] {
      var step := if a[0].0.S? then 0 else 1;
      var head := if a[0].0.S? then a[0] else (I(next), a[0].1);
      var rest := Renumber(a[1..], next + step);
      RenumberValues(a[1..], next + step);
      assert Renumber(a, next) == [head] + rest;
      assert Values([head] + rest) == [a[0].1] + Values(rest);
      assert Values(a) == [a[0].1] + Values(a[1..]);
    }
  }

  /** How many integer keys there are among the first i pairs. */
  function IntKeysBefore<V>(a: seq<(Key, V)>, i: nat): nat
    requires i <= |a|
  {
    if i == 0 then 0 else IntKeysBefore(a, i - 1) + (if a[i - 1].0.I? then 1 else 0)
  }

  /** Counting integer keys only looks at the pairs counted. */
  lemma {:induction false} IntKeysAppend<V>(a: seq<(Key, V)>, b: seq<(Key, V)>, i: nat)
    requires i <= |a|
    ensures IntKeysBefore(a + b, i) == IntKeysBefore(a, i)
  {
    if i > 0 {
      IntKeysAppend(a, b, i - 1);
      assert (a + b)[i - 1] == a[i - 1];
    }
  }

  /** Every count below the total number of integer keys is reached at
      some integer key. */
  lemma {:induction false} IntKeyReached<V>(a: seq<(Key, V)>, n: nat, c: nat)
    requires n <= |a| && c < IntKeysBefore(a, n)
    ensures exists p :: 0 <= p < n && a[p].0.I? && IntKeysBefore(a, p) == c
    decreases n
  {
    if c < IntKeysBefore(a, n - 1) {
      IntKeyReached(a, n - 1, c);
      var p :| 0 <= p < n - 1 && a[p].0.I? && IntKeysBefore(a, p) == c;
    } else {
      assert a[n - 1].0.I? && IntKeysBefore(a, n - 1) == c;
    }
  }

  /** Renumbering keeps every string key in place and gives the integer key
      at position i the number of integer keys before it (plus `next`). */
  lemma {:induction false} RenumberKeys<V>(a: seq<(Key, V)>, next: int)
    ensures forall i :: 0 <= i < |a| ==>
      Renumber(a, next)[i].0 == if a[i].0.S? then a[i].0 else I(next + IntKeysBefore(a, i))
  {
    forall i | 0 <= i < |a|
      ensures Renumber(a, next)[i].0 == if a[i].0.S? then a[i].0 else I(next + IntKeysBefore(a, i))
    {
      RenumberKeyAt(a, next, i);
    }
  }

  lemma {:induction false} RenumberKeyAt<V>(a: seq<(Key, V)>, next: int, i: nat)
    requires i < |a|
    ensures Renumber(a, next)[i].0 == if a[i].0.S? then a[i].0 else I(next + IntKeysBefore(a, i))
    decreases i
  {
    if i > 0 {
      var step := if a[0].0.S? then 0 else 1;
      var rest := Renumber(a[1..], next + step);
      var head := if a[0].0.S? then a[0] else (I(next), a[0].1);
      assert Renumber(a, next) == [head] + rest;
      assert ([head] + rest)[i] == rest[i - 1];
      RenumberKeyAt(a[1..], next + step, i - 1);
      IntKeysShift(a, i);
      assert a[1..][i - 1] == a[i];
    }
  }

  lemma {:induction false} IntKeysShift<V>(a: seq<(Key, V)>, i: nat)
    requires 0 < i <= |a|
    ensures IntKeysBefore(a, i) == (if a[0].0.I? then 1 else 0) + IntKeysBefore(a[1..], i - 1)
  {
    if i > 1 {
      IntKeysShift(a, i - 1);
      assert a[1..][i - 2] == a[i - 1];
    }
  }

  /** Renumbering one more pair: a string key stays, an integer key gets
      the next number after those already given out. */
  lemma {:induction false} RenumberSnoc<V>(xs: seq<(Key, V)>, x: (Key, V), next: int)
    ensures Renumber(xs + [x], next) ==
      Renumber(xs, next) + [if x.0.S? then x else (I(next + IntKeysBefore(xs, |xs|)), x.1)]
    decreases |xs|
  {
    if xs == [] {
      assert xs + [x] == [x];
    } else {
      var step := if xs[0].0.S? then 0 else 1;
      var head := if xs[0].0.S? then xs[0] else (I(next), xs[0].1);
      RenumberSnoc(xs[1..], x, next + step);
      IntKeysShift(xs, |xs|);
      var rest := Renumber(xs[1..], next + step);
      var x' := if x.0.S? then x else (I(next + IntKeysBefore(xs, |xs|)), x.1);
      calc {
        Renumber(xs + [x], next);
        { assert (xs + [x])[0] == xs[0] && (xs + [x])[1..] == xs[1..] + [x]; }
        [head] + Renumber(xs[1..] + [x], next + step);
        [head] + (rest + [x']);
        ([head] + rest) + [x'];
      }
    }
  }

  /** Integer keys further along get larger numbers. */
  lemma {:induction false} IntKeysGrow<V>(a: seq<(Key, V)>, i: nat, j: nat)
    requires i < j <= |a| && a[i].0.I?
    ensures IntKeysBefore(a, i) < IntKeysBefore(a, j)
    decreases j
  {
    if j > i + 1 {
      IntKeysGrow(a, i, j - 1);
    }
  }

  /** When every key is an integer, renumbering gives the list of values. */
  lemma {:induction false} RenumberAllInts<V>(a: seq<(Key, V)>)
    requires forall i :: 0 <= i < |a| ==> a[i].0.I?
    ensures Renumber(a, 0) == List(Values(a))
  {
    RenumberKeys(a, 0);
    RenumberValues(a, 0);
    var r := Renumber(a, 0);
    forall i | 0 <= i < |a| ensures r[i] == (I(i), a[i].1) {
      IntKeysCountAll(a, i);
      assert Values(r)[i] == r[i].1;
    }
  }

  lemma {:induction false} IntKeysCountAll<V>(a: seq<(Key, V)>, i: nat)
    requires i <= |a| && forall j :: 0 <= j < |a| ==> a[j].0.I?
    ensures IntKeysBefore(a, i) == i
  {
    if i > 0 {
      IntKeysCountAll(a, i - 1);
    }
  }

  /** Left fold over the pairs in order: the callback gets the running carry,
      then the value and the key of the next pair. */
  function FoldLeft<C, V>(f: (C, V, Key) -> C, init: C, a: seq<(Key, V)>): C
    decreases |a|
  {
    if a == [] then init
    else f(FoldLeft(f, init, a[..|a| - 1]), a[|a| - 1].1, a[|a| - 1].0)
  }
}
