/** `iterable_allocate(total)`: every way of sharing `total` units among the
    input's keys (stars and bars), one allocation per yielded array, in
    lexicographic order of the count vectors. */
module Allocate {
  import opened PhpArray

  function Sum(v: seq<nat>): nat
    decreases |v|
  {
    if v == [] then 0 else v[0] + Sum(v[1..])
  }

  /** Each vector with `c` put in front. */
  function Prefix(c: nat, vs: seq<seq<nat>>): (r: seq<seq<nat>>)
    ensures |r| == |vs|
    ensures forall i :: 0 <= i < |vs| ==> r[i] == [c] + vs[i]
  {
    seq(|vs|, i requires 0 <= i < |vs| => [c] + vs[i])
  }

  /** The count vectors of n slots summing to t: the first slot runs from 0
      to t, slowest, and the remaining slots share what is left. */
  function Counts(n: nat, t: nat): (r: seq<seq<nat>>)
    ensures forall i :: 0 <= i < |r| ==> |r[i]| == n && Sum(r[i]) == t
    decreases n, 2, 0
  {
    if n == 0 then (if t == 0 then [[]] else [])
    else Branch(n - 1, t, 0)
  }

  /** The vectors of n+1 slots summing to t whose first slot is c or more. */
  function Branch(n: nat, t: nat, c: nat): (r: seq<seq<nat>>)
    ensures forall i :: 0 <= i < |r| ==> |r[i]| == n + 1 && Sum(r[i]) == t && r[i][0] >= c
    decreases n + 1, 1, t + 1 - c
  {
    if c > t then []
    else
      var here := Prefix(c, Counts(n, t - c));
      assert forall i :: 0 <= i < |here| ==> here[i][1..] == Counts(n, t - c)[i];
      here + Branch(n, t, c + 1)
  }

  /** u comes strictly before v in lexicographic order. */
  predicate LexLess(u: seq<nat>, v: seq<nat>)
    decreases |u|
  {
    u != [] && v != [] && (u[0] < v[0] || (u[0] == v[0] && LexLess(u[1..], v[1..])))
  }

  predicate StrictlySorted(vs: seq<seq<nat>>) {
    forall i, j :: 0 <= i < j < |vs| ==> LexLess(vs[i], vs[j])
  }

  /** The enumeration is in strictly increasing lexicographic order, so no
      allocation is repeated. */
  lemma {:induction false} CountsSorted(n: nat, t: nat)
    ensures StrictlySorted(Counts(n, t))
    decreases n, 2, 0
  {
    if n > 0 {
      BranchSorted(n - 1, t, 0);
    }
  }

  lemma {:induction false} BranchSorted(n: nat, t: nat, c: nat)
    ensures StrictlySorted(Branch(n, t, c))
    decreases n + 1, 1, t + 1 - c
  {
    if c <= t {
      var inner := Counts(n, t - c);
      var here := Prefix(c, inner);
      var rest := Branch(n, t, c + 1);
      CountsSorted(n, t - c);
      BranchSorted(n, t, c + 1);
      var all := here + rest;
      forall i, j | 0 <= i < j < |all| ensures LexLess(all[i], all[j]) {
        if j < |here| {
          assert all[i] == [c] + inner[i] && all[j] == [c] + inner[j];
          assert LexLess(inner[i], inner[j]);
          assert all[i][1..] == inner[i] && all[j][1..] == inner[j];
        } else if i < |here| {
          assert all[j] == rest[j - |here|] && rest[j - |here|] in rest;
          assert all[i][0] == c < all[j][0];
          assert |all[i]| == n + 1;
        } else {
          assert all[i] == rest[i - |here|] && all[j] == rest[j - |here|];
        }
      }
    }
  }

  /** Every vector of n slots summing to t is enumerated. */
  lemma {:induction false} CountsComplete(n: nat, t: nat, v: seq<nat>)
    requires |v| == n && Sum(v) == t
    ensures v in Counts(n, t)
    decreases n, 2, 0
  {
    if n > 0 {
      BranchComplete(n - 1, t, 0, v);
    } else {
      assert v == [];
    }
  }

  lemma {:induction false} BranchComplete(n: nat, t: nat, c: nat, v: seq<nat>)
    requires |v| == n + 1 && Sum(v) == t && c <= v[0]
    ensures v in Branch(n, t, c)
    decreases n + 1, 1, t + 1 - c
  {
    assert Sum(v) == v[0] + Sum(v[1..]);
    assert c <= t;
    var here := Prefix(c, Counts(n, t - c));
    assert Branch(n, t, c) == here + Branch(n, t, c + 1);
    if v[0] == c {
      CountsComplete(n, t - c, v[1..]);
      var inner := Counts(n, t - c);
      var k :| 0 <= k < |inner| && inner[k] == v[1..];
      assert here[k] == [c] + v[1..] == v;
    } else {
      BranchComplete(n, t, c + 1, v);
    }
  }

  function Binom(a: nat, b: nat): nat
    decreases a
  {
    if b == 0 then 1 else if a == 0 then 0 else Binom(a - 1, b - 1) + Binom(a - 1, b)
  }

  lemma {:induction false} BinomAll(n: nat)
    ensures Binom(n, n) == 1
  {
    if n > 0 {
      BinomAll(n - 1);
      BinomAbove(n - 1, n);
    }
  }

  lemma {:induction false} BinomAbove(a: nat, b: nat)
    requires a < b
    ensures Binom(a, b) == 0
  {
    if a > 0 {
      BinomAbove(a - 1, b - 1);
      BinomAbove(a - 1, b);
    }
  }

  /** Starting the first slot at c >= 1 is the same count as starting it one
      lower with one unit less to share. */
  lemma {:induction false} BranchShift(n: nat, t: nat, c: nat)
    requires 1 <= c
    ensures t >= 1 ==> |Branch(n, t, c)| == |Branch(n, t - 1, c - 1)|
    ensures t == 0 ==> |Branch(n, t, c)| == 0
    decreases t + 1 - c
  {
    if c <= t {
      BranchShift(n, t, c + 1);
    }
  }

  /** Stars and bars: n+1 slots and total t give C(t+n, n) allocations. */
  lemma {:induction false} CountsSize(n: nat, t: nat)
    ensures |Counts(n + 1, t)| == Binom(t + n, n)
    decreases n + t
  {
    if n == 0 {
      SizeOneSlot(t);
    } else if t == 0 {
      SizeNoUnits(n);
    } else {
      var m := n - 1;
      var u := t - 1;
      assert |Counts(n + 1, t)| == |Counts(m + 1, t)| + |Counts(n + 1, u)| by { CountsStep(n, t); }
      assert |Counts(m + 1, t)| == Binom(t + m, m) by { CountsSize(m, t); }
      assert |Counts(n + 1, u)| == Binom(u + n, n) by { CountsSize(n, u); }
      assert Binom(t + n, n) == Binom(t + m, m) + Binom(u + n, n) by { Pascal(t + n, n); }
    }
  }

  lemma SizeOneSlot(t: nat)
    ensures |Counts(1, t)| == Binom(t, 0)
  {
    OneSlot(t, 0);
    assert Counts(1, t) == Branch(0, t, 0);
  }

  lemma SizeNoUnits(n: nat)
    ensures |Counts(n + 1, 0)| == Binom(n, n)
  {
    CountsZero(n + 1);
    BinomAll(n);
  }

  lemma Pascal(a: nat, b: nat)
    requires 0 < b <= a
    ensures Binom(a, b) == Binom(a - 1, b - 1) + Binom(a - 1, b)
  {
  }

  /** The first slot is either empty, leaving t for the others, or holds at
      least one unit, leaving t-1 to share as before. */
  lemma CountsStep(n: nat, t: nat)
    requires t >= 1
    ensures |Counts(n + 1, t)| == |Counts(n, t)| + |Counts(n + 1, t - 1)|
  {
    assert Counts(n + 1, t) == Branch(n, t, 0);
    assert Branch(n, t, 0) == Prefix(0, Counts(n, t)) + Branch(n, t, 1);
    BranchShift(n, t, 1);
    assert Counts(n + 1, t - 1) == Branch(n, t - 1, 0);
  }

  lemma {:induction false} OneSlot(t: nat, c: nat)
    ensures |Branch(0, t, c)| == if c <= t then 1 else 0
    decreases t + 1 - c
  {
    if c <= t {
      OneSlot(t, c + 1);
      assert |Counts(0, t - c)| == if c == t then 1 else 0;
    }
  }

  lemma {:induction false} CountsZero(n: nat)
    ensures |Counts(n, 0)| == 1
  {
    if n > 0 {
      CountsZero(n - 1);
      assert |Branch(n - 1, 0, 1)| == 0 by { BranchShift(n - 1, 0, 1); }
    }
  }

  /** Four slots and a total of three: twenty allocations. */
  lemma FourSlotsThreeUnits()
    ensures |Counts(4, 3)| == 20
  {
    CountsSize(3, 3);
    SixChooseThree();
  }

  lemma SixChooseThree()
    ensures Binom(6, 3) == 20
  {
    PascalRow3();
    assert Binom(4, 2) == Binom(3, 1) + Binom(3, 2);
    assert Binom(4, 3) == Binom(3, 2) + Binom(3, 3);
    assert Binom(5, 2) == Binom(4, 1) + Binom(4, 2);
    assert Binom(5, 3) == Binom(4, 2) + Binom(4, 3);
    assert Binom(6, 3) == Binom(5, 2) + Binom(5, 3);
  }

  lemma PascalRow3()
    ensures Binom(3, 1) == 3 && Binom(3, 2) == 3 && Binom(3, 3) == 1 && Binom(4, 1) == 4
  {
    assert Binom(1, 1) == Binom(0, 0) + Binom(0, 1) == 1;
    assert Binom(1, 2) == Binom(0, 1) + Binom(0, 2) == 0;
    assert Binom(2, 1) == Binom(1, 0) + Binom(1, 1) == 2;
    assert Binom(2, 2) == Binom(1, 1) + Binom(1, 2) == 1;
    assert Binom(3, 1) == Binom(2, 0) + Binom(2, 1) == 3;
    assert Binom(3, 2) == Binom(2, 1) + Binom(2, 2) == 3;
    assert Binom(3, 3) == Binom(2, 2) + Binom(2, 3) == 1 by { BinomAbove(2, 3); }
    assert Binom(4, 1) == Binom(3, 0) + Binom(3, 1) == 4;
  }

  /** One allocation: the counts under the input keys, in input order. */
  function Label(ks: seq<Key>, v: seq<nat>): (a: seq<(Key, int)>)
    requires |v| == |ks|
    ensures Keys(a) == ks
  {
    seq(|ks|, j requires 0 <= j < |ks| => (ks[j], v[j] as int))
  }

  /** The factory rejects a negative total before seeing any input; the
      closure ignores the input values and keys the allocations 0, 1, ... */
  function IterableAllocate<V>(total: int): (r: Result<seq<(Key, V)> -> seq<(Key, seq<(Key, int)>)>>)
    ensures r.Err? <==> total < 0
    ensures r.Err? ==> r.error == InvalidArgument
  {
    if total < 0 then Err(InvalidArgument)
    else Ok((a: seq<(Key, V)>) =>
      var cs := Counts(|a|, total);
      List(seq(|cs|, i requires 0 <= i < |cs| => Label(Keys(a), cs[i]))))
  }

  /** Every allocation carries exactly the input keys in input order, with
      non-negative counts adding up to the total; the allocations are
      exactly the count vectors, in increasing lexicographic order. */
  lemma AllocateSpec<V>(total: int, a: seq<(Key, V)>)
    requires total >= 0
    ensures var out := IterableAllocate<V>(total).value(a);
      && |out| == |Counts(|a|, total)|
      && forall i :: 0 <= i < |out| ==>
           && out[i].0 == I(i)
           && Keys(out[i].1) == Keys(a)
           && (forall j :: 0 <= j < |a| ==> out[i].1[j].1 == Counts(|a|, total)[i][j] >= 0)
           && Sum(Counts(|a|, total)[i]) == total
  {
    var cs := Counts(|a|, total);
    assert forall i :: 0 <= i < |cs| ==> cs[i] in cs;
  }

  /** With no slots, a zero total gives one empty allocation and a positive
      total gives none. */
  lemma NoSlots<V>(total: int)
    requires total >= 0
    ensures IterableAllocate<V>(total).value([]) == if total == 0 then [(I(0), [])] else []
  {
  }
}
