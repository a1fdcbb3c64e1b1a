/** Byte-string combinators: explode, implode, str_replace, str_starts_with
    and iterable_string. The functions are generic in the element type; a
    PHP string is `Bytes`. */
module PhpString {
  import opened PhpArray

  newtype Byte = b: int | 0 <= b < 256
  type Bytes = seq<Byte>

  /** d occurs in x at position j. */
  ghost predicate OccursAt<T>(x: seq<T>, d: seq<T>, j: int) {
    0 <= j && j + |d| <= |x| && x[j..j + |d|] == d
  }

  ghost predicate Contains<T>(x: seq<T>, d: seq<T>) {
    exists j :: OccursAt(x, d, j)
  }

  // ---------------------------------------------------------------- explode

  /** Split s at every occurrence of d, scanning left to right; empty and
      trailing pieces are kept. */
  function Split<T(==)>(s: seq<T>, d: seq<T>): (parts: seq<seq<T>>)
    requires |d| > 0
    ensures |parts| >= 1
    decreases |s|
  {
    if |s| < |d| then [s]
    else if s[..|d|] == d then [[]] + Split(s[|d|..], d)
    else
      var rest := Split(s[1..], d);
      [[s[0]] + rest[0]] + rest[1..]
  }

  /** `explode($d, $s)`: an empty delimiter is a ValueError; otherwise the
      pieces, keyed 0, 1, 2, ... */
  function Explode(d: Bytes, s: Bytes): (r: Result<seq<(Key, Bytes)>>)
    ensures r.Err? <==> d == []
    ensures r.Ok? ==> IsList(r.value) && Values(r.value) == Split(s, d)
  {
    if d == [] then Err(ValueError) else Ok(List(Split(s, d)))
  }

  // ---------------------------------------------------------------- implode

  /** The values joined with sep between consecutive ones. */
  function Join<T>(sep: seq<T>, parts: seq<seq<T>>): seq<T>
    decreases |parts|
  {
    if parts == [] then []
    else if |parts| == 1 then parts[0]
    else parts[0] + sep + Join(sep, parts[1..])
  }

  /** `implode($sep, $a)`: values in iteration order, keys ignored. With an
      empty separator, or at most one value, it is the plain concatenation
      of the values. */
  function Implode(sep: Bytes, a: seq<(Key, Bytes)>): (r: Bytes)
    ensures sep == [] ==> r == Concat(Values(a))
    ensures |a| <= 1 ==> r == Concat(Values(a))
  {
    JoinEmptySeparator(Values(a));
    JoinOneOrNone(sep, Values(a));
    Join(sep, Values(a))
  }

  /** Joining with nothing between the parts is concatenating them. */
  lemma {:induction false} JoinEmptySeparator<T>(parts: seq<seq<T>>)
    ensures Join([], parts) == Concat(parts)
    decreases |parts|
  {
    if |parts| > 1 {
      JoinEmptySeparator(parts[1..]);
    } else if |parts| == 1 {
      assert Concat(parts) == parts[0] + Concat(parts[1..]);
      assert parts[1..] == [];
    }
  }

  /** No separator appears when there is at most one part. */
  lemma JoinOneOrNone<T>(sep: seq<T>, parts: seq<seq<T>>)
    ensures |parts| <= 1 ==> Join(sep, parts) == Concat(parts)
  {
    if |parts| == 1 {
      assert Concat(parts) == parts[0] + Concat(parts[1..]);
      assert parts[1..] == [];
    }
  }

  lemma {:induction false} JoinConsHead<T>(sep: seq<T>, b: T, parts: seq<seq<T>>)
    requires |parts| >= 1
    ensures Join(sep, [[b] + parts[0]] + parts[1..]) == [b] + Join(sep, parts)
  {
    var q := [[b] + parts[0]] + parts[1..];
    if |parts| > 1 {
      assert q[1..] == parts[1..];
    }
  }

  /** Imploding the pieces of an explode with the same delimiter gives back
      the original string. */
  lemma {:induction false} JoinSplit<T>(s: seq<T>, d: seq<T>)
    requires |d| > 0
    ensures Join(d, Split(s, d)) == s
    decreases |s|
  {
    if |s| < |d| {
    } else if s[..|d|] == d {
      JoinSplit(s[|d|..], d);
      var rest := Split(s[|d|..], d);
      assert ([[]] + rest)[1..] == rest;
      assert s == d + s[|d|..];
    } else {
      JoinSplit(s[1..], d);
      JoinConsHead(d, s[0], Split(s[1..], d));
      assert s == [s[0]] + s[1..];
    }
  }

  lemma {:induction false} SplitHeadIsPrefix<T>(s: seq<T>, d: seq<T>)
    requires |d| > 0
    ensures |Split(s, d)[0]| <= |s| && Split(s, d)[0] == s[..|Split(s, d)[0]|]
    decreases |s|
  {
    if |s| >= |d| && s[..|d|] != d {
      SplitHeadIsPrefix(s[1..], d);
    }
  }

  /** No piece of an explode contains the delimiter. */
  lemma {:induction false} SplitPiecesAvoidDelimiter<T>(s: seq<T>, d: seq<T>)
    requires |d| > 0
    ensures forall i :: 0 <= i < |Split(s, d)| ==> !Contains(Split(s, d)[i], d)
    decreases |s|
  {
    var parts := Split(s, d);
    if |s| < |d| {
      forall j | OccursAt(s, d, j) ensures false { }
    } else if s[..|d|] == d {
      SplitPiecesAvoidDelimiter(s[|d|..], d);
      var rest := Split(s[|d|..], d);
      forall i | 0 <= i < |parts| ensures !Contains(parts[i], d) {
        if i > 0 {
          assert parts[i] == rest[i - 1];
        }
      }
    } else {
      var rest := Split(s[1..], d);
      SplitPiecesAvoidDelimiter(s[1..], d);
      SplitHeadIsPrefix(s[1..], d);
      HeadAvoidsDelimiter(s, d, rest[0]);
      forall i | 0 <= i < |parts| ensures !Contains(parts[i], d) {
        if i > 0 {
          assert parts[i] == rest[i];
        }
      }
    }
  }

  /** A first piece, a prefix of the rest of s, grown by a first byte that
      does not start a delimiter, still avoids the delimiter. */
  lemma HeadAvoidsDelimiter<T>(s: seq<T>, d: seq<T>, first: seq<T>)
    requires |d| > 0 && |s| >= |d| && s[..|d|] != d
    requires |first| < |s| && first == s[1..][..|first|] && !Contains(first, d)
    ensures !Contains([s[0]] + first, d)
  {
    var head := [s[0]] + first;
    assert head == s[..|head|];
    assert |head| >= |d| ==> head[..|d|] == s[..|d|];
    ConsAvoids(s[0], first, d);
  }

  /** Putting one element in front of a sequence free of d creates no
      occurrence of d other than at the front. */
  lemma ConsAvoids<T>(c: T, x: seq<T>, d: seq<T>)
    requires |d| > 0 && !Contains(x, d)
    requires |[c] + x| >= |d| ==> ([c] + x)[..|d|] != d
    ensures !Contains([c] + x, d)
  {
    var y := [c] + x;
    forall j ensures !OccursAt(y, d, j) {
      if 0 < j && j + |d| <= |y| {
        assert x[j - 1..j - 1 + |d|] == y[j..j + |d|];
        assert !OccursAt(x, d, j - 1);
      }
    }
  }

  /** Number of times b occurs in s. */
  function Count<T(==)>(s: seq<T>, b: T): nat
    decreases |s|
  {
    if s == [] then 0 else (if s[0] == b then 1 else 0) + Count(s[1..], b)
  }

  /** With a one-byte delimiter there is exactly one more piece than there
      are delimiter bytes ('a,,c,' gives four pieces). */
  lemma {:induction false} SplitCount<T>(s: seq<T>, b: T)
    ensures |Split(s, [b])| == Count(s, b) + 1
    decreases |s|
  {
    if |s| >= 1 {
      SplitCount(s[1..], b);
      assert s[..1] == [s[0]];
    }
  }

  lemma {:induction false} SplitAfterPiece<T>(p: seq<T>, b: T, t: seq<T>)
    requires b !in p
    ensures Split(p + [b] + t, [b]) == [p] + Split(t, [b])
    decreases |p|
  {
    var s := p + [b] + t;
    if p == [] {
      assert s[..1] == [b];
      assert s[1..] == t;
    } else {
      assert s[..1] == [p[0]];
      assert s[1..] == p[1..] + [b] + t;
      SplitAfterPiece(p[1..], b, t);
      assert [p[0]] + p[1..] == p;
    }
  }

  lemma {:induction false} SplitWithout<T>(p: seq<T>, b: T)
    requires b !in p
    ensures Split(p, [b]) == [p]
    decreases |p|
  {
    if p != [] {
      assert p[..1] == [p[0]];
      SplitWithout(p[1..], b);
      assert [p[0]] + p[1..] == p;
    }
  }

  /** Exploding an implode with a one-byte separator that no piece contains
      gives back the pieces. */
  lemma {:induction false} SplitJoin<T>(parts: seq<seq<T>>, b: T)
    requires |parts| >= 1
    requires forall i :: 0 <= i < |parts| ==> b !in parts[i]
    ensures Split(Join([b], parts), [b]) == parts
    decreases |parts|
  {
    if |parts| == 1 {
      SplitWithout(parts[0], b);
    } else {
      SplitJoin(parts[1..], b);
      SplitAfterPiece(parts[0], b, Join([b], parts[1..]));
      assert [parts[0]] + parts[1..] == parts;
    }
  }

  // ------------------------------------------------------------ str_replace

  /** Every occurrence of d, found left to right without overlap, replaced
      by r. */
  function ReplaceAll<T(==)>(s: seq<T>, d: seq<T>, r: seq<T>): (out: seq<T>)
    requires |d| > 0
    ensures r == d ==> out == s
    decreases |s|
  {
    if |s| < |d| then s
    else if s[..|d|] == d then r + ReplaceAll(s[|d|..], d, r)
    else [s[0]] + ReplaceAll(s[1..], d, r)
  }

  /** Replacing is exploding at the search string and imploding with the
      replacement. */
  lemma {:induction false} ReplaceIsSplitJoin<T>(s: seq<T>, d: seq<T>, r: seq<T>)
    requires |d| > 0
    ensures ReplaceAll(s, d, r) == Join(r, Split(s, d))
    decreases |s|
  {
    if |s| < |d| {
    } else if s[..|d|] == d {
      ReplaceIsSplitJoin(s[|d|..], d, r);
      var rest := Split(s[|d|..], d);
      assert ([[]] + rest)[1..] == rest;
    } else {
      ReplaceIsSplitJoin(s[1..], d, r);
      JoinConsHead(r, s[0], Split(s[1..], d));
    }
  }

  /** A subject with no occurrence of the search string is unchanged, and
      an empty replacement deletes the occurrences. */
  lemma ReplaceConsequences<T>(s: seq<T>, d: seq<T>)
    requires |d| > 0
    ensures !Contains(s, d) ==> ReplaceAll(s, d, d) == s && forall r :: ReplaceAll(s, d, r) == s
    ensures ReplaceAll(s, d, []) == Join([], Split(s, d))
  {
    ReplaceIsSplitJoin(s, d, []);
    JoinSplit(s, d);
    ReplaceIsSplitJoin(s, d, d);
    if !Contains(s, d) {
      forall r ensures ReplaceAll(s, d, r) == s {
        NoOccurrenceSplit(s, d);
        ReplaceIsSplitJoin(s, d, r);
      }
    }
  }

  lemma {:induction false} NoOccurrenceSplit<T>(s: seq<T>, d: seq<T>)
    requires |d| > 0 && !Contains(s, d)
    ensures Split(s, d) == [s]
    decreases |s|
  {
    if |s| >= |d| {
      assert !OccursAt(s, d, 0);
      assert !Contains(s[1..], d) by {
        forall j | OccursAt(s[1..], d, j) ensures OccursAt(s, d, j + 1) {
          assert s[1..][j..j + |d|] == s[j + 1..j + 1 + |d|];
        }
      }
      NoOccurrenceSplit(s[1..], d);
      assert [s[0]] + s[1..] == s;
    }
  }

  /** The replacement for the i-th search string: one string for all, or
      the i-th of a list, "" when the list is shorter. */
  datatype Replacement = One(r: Bytes) | Many(rs: seq<Bytes>)

  function ReplacementAt(rep: Replacement, i: nat): Bytes {
    match rep
    case One(r) => r
    case Many(rs) => if i < |rs| then rs[i] else []
  }

  /** `str_replace($search, $replace, $s)` on a string subject: each search
      string in turn is replaced throughout the result of the previous one;
      an empty search string is skipped. */
  function StrReplace(search: seq<Bytes>, rep: Replacement, s: Bytes): (r: Bytes)
    ensures (forall i :: 0 <= i < |search| ==> search[i] == ReplacementAt(rep, i)) ==> r == s
    decreases |search|
  {
    if search == [] then s
    else
      var i := |search| - 1;
      var before := StrReplace(search[..i], rep, s);
      if search[i] == [] then before else ReplaceAll(before, search[i], ReplacementAt(rep, i))
  }

  /** With one search string, str_replace is explode followed by implode. */
  lemma StrReplaceSingle(d: Bytes, r: Bytes, s: Bytes)
    requires d != []
    ensures StrReplace([d], One(r), s) == Join(r, Split(s, d))
  {
    assert [d][..0] == [];
    ReplaceIsSplitJoin(s, d, r);
  }

  /** An array subject is processed element by element and keeps its keys. */
  function StrReplaceArray(search: seq<Bytes>, rep: Replacement, a: seq<(Key, Bytes)>): (r: seq<(Key, Bytes)>)
    ensures Keys(r) == Keys(a)
    ensures forall i :: 0 <= i < |a| ==> r[i].1 == StrReplace(search, rep, a[i].1)
  {
    seq(|a|, i requires 0 <= i < |a| => (a[i].0, StrReplace(search, rep, a[i].1)))
  }

  // -------------------------------------------------------- str_starts_with

  /** Byte-by-byte comparison of the needle against the start of s: true
      exactly when the needle is a prefix, that is, `s` is the needle
      followed by something. */
  function StartsWith<T(==)>(s: seq<T>, needle: seq<T>): (b: bool)
    ensures b <==> |needle| <= |s| && s[..|needle|] == needle
    decreases |needle|
  {
    if needle == [] then true
    else if s == [] || s[0] != needle[0] then false
    else
      assert |needle| <= |s| ==> s[..|needle|] == [s[0]] + s[1..][..|needle| - 1];
      assert |needle| <= |s| && s[..|needle|] == needle ==> s[1..][..|needle| - 1] == needle[1..];
      StartsWith(s[1..], needle[1..])
  }

  lemma StartsWithConcat<T>(needle: seq<T>, t: seq<T>)
    ensures StartsWith(needle + t, needle)
  {
    assert (needle + t)[..|needle|] == needle;
  }

  // -------------------------------------------------------- iterable_string

  /** Consecutive pieces of `size` bytes (the last may be shorter), keyed by
      their byte offset. */
  function ChunksFrom<T>(s: seq<T>, size: nat, offset: nat): (cs: seq<(Key, seq<T>)>)
    requires size > 0
    ensures forall i :: 0 <= i < |cs| ==> 0 < |cs[i].1| <= size
    decreases |s|
  {
    if s == [] then []
    else if |s| <= size then [(I(offset), s)]
    else [(I(offset), s[..size])] + ChunksFrom(s[size..], size, offset + size)
  }

  /** `iterable_string($size)`: a size below 1 is rejected when the
      transformer is made, before any string is seen. */
  function IterableString(size: int): (r: Result<Bytes -> seq<(Key, Bytes)>>)
    ensures r.Err? <==> size <= 0
    ensures r.Ok? ==> forall s :: r.value(s) == ChunksFrom(s, size as nat, 0)
  {
    if size <= 0 then Err(InvalidArgument)
    else Ok((s: Bytes) => ChunksFrom(s, size as nat, 0))
  }

  /** The chunks are keyed offset, offset+size, ...; every one but the last
      has exactly `size` bytes, the last has between 1 and `size`. */
  lemma {:induction false} ChunksFromShape<T>(s: seq<T>, size: nat, offset: nat)
    requires size > 0
    ensures var cs := ChunksFrom(s, size, offset);
      && (cs == [] <==> s == [])
      && (forall i :: 0 <= i < |cs| ==> cs[i].0 == I(offset + i * size))
      && (forall i :: 0 <= i < |cs| - 1 ==> |cs[i].1| == size)
      && (cs != [] ==> 1 <= |cs[|cs| - 1].1| <= size)
    decreases |s|
  {
    var cs := ChunksFrom(s, size, offset);
    if |s| > size {
      ChunksFromShape(s[size..], size, offset + size);
      var rest := ChunksFrom(s[size..], size, offset + size);
      assert cs == [(I(offset), s[..size])] + rest;
      forall i | 0 <= i < |cs| ensures cs[i].0 == I(offset + i * size) {
        if i > 0 {
          assert cs[i] == rest[i - 1];
          assert offset + size + (i - 1) * size == offset + i * size;
        }
      }
    }
  }

  /** Laid end to end, the chunks give back the string, NUL bytes included. */
  lemma {:induction false} ChunksFromConcat<T>(s: seq<T>, size: nat, offset: nat)
    requires size > 0
    ensures Concat(Values(ChunksFrom(s, size, offset))) == s
    decreases |s|
  {
    var cs := ChunksFrom(s, size, offset);
    if s == [] {
    } else if |s| <= size {
      assert Values(cs) == [s];
    } else {
      ChunksFromConcat(s[size..], size, offset + size);
      var rest := ChunksFrom(s[size..], size, offset + size);
      assert Values(cs) == [s[..size]] + Values(rest);
      assert Values(cs)[1..] == Values(rest);
      assert s == s[..size] + s[size..];
    }
  }

  /** A size at least the string's length gives the whole string at key 0;
      the empty string gives nothing. */
  lemma ChunksWhole<T>(s: seq<T>, size: nat)
    requires size > 0
    ensures s == [] ==> ChunksFrom(s, size, 0) == []
    ensures 0 < |s| <= size ==> ChunksFrom(s, size, 0) == [(I(0), s)]
  {
  }
}
