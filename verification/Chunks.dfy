/**
 First elements of lists, lists mapped to concatenations, and byte strings cut into
 consecutive chunks, one for each element of a list. The size of a chunk depends on
 its element only; what a chunk may contain is a relation.
 */
module Chunks {
  import opened Bytes

  ghost predicate Chunked<T>(xs: seq<T>, bs: seq<byte>, size: T -> nat, rel: (T, seq<byte>) -> bool) {
    if xs == [] then bs == []
    else
      var n := size(xs[0]);
      n <= |bs| && rel(xs[0], bs[..n]) && Chunked(xs[1..], bs[n..], size, rel)
  }

  function SizeSum<T>(xs: seq<T>, size: T -> nat): nat {
    if xs == [] then 0 else size(xs[0]) + SizeSum(xs[1..], size)
  }

  lemma {:induction false} ChunkedSize<T>(xs: seq<T>, bs: seq<byte>, size: T -> nat, rel: (T, seq<byte>) -> bool)
    requires Chunked(xs, bs, size, rel)
    ensures |bs| == SizeSum(xs, size)
  {
    if xs != [] {
      ChunkedSize(xs[1..], bs[size(xs[0])..], size, rel);
    }
  }

  lemma ChunkedCons<T>(x: T, xs: seq<T>, c: seq<byte>, bs: seq<byte>, size: T -> nat, rel: (T, seq<byte>) -> bool)
    requires |c| == size(x) && rel(x, c) && Chunked(xs, bs, size, rel)
    ensures Chunked([x] + xs, c + bs, size, rel)
  {
    assert ([x] + xs)[1..] == xs;
    assert (c + bs)[..|c|] == c && (c + bs)[|c|..] == bs;
  }

  lemma ChunkedUncons<T>(xs: seq<T>, bs: seq<byte>, size: T -> nat, rel: (T, seq<byte>) -> bool)
    requires xs != [] && Chunked(xs, bs, size, rel)
    ensures size(xs[0]) <= |bs|
    ensures rel(xs[0], bs[..size(xs[0])]) && Chunked(xs[1..], bs[size(xs[0])..], size, rel)
  {
  }

  lemma {:induction false} ChunkedConcat<T>(xs: seq<T>, ys: seq<T>, bs: seq<byte>, cs: seq<byte>,
                                            size: T -> nat, rel: (T, seq<byte>) -> bool)
    requires Chunked(xs, bs, size, rel) && Chunked(ys, cs, size, rel)
    ensures Chunked(xs + ys, bs + cs, size, rel)
  {
    if xs == [] {
      assert xs + ys == ys && bs + cs == cs;
    } else {
      var n := size(xs[0]);
      ChunkedConcat(xs[1..], ys, bs[n..], cs, size, rel);
      ChunkedCons(xs[0], xs[1..] + ys, bs[..n], bs[n..] + cs, size, rel);
      assert [xs[0]] + (xs[1..] + ys) == xs + ys;
      assert bs[..n] + (bs[n..] + cs) == bs + cs;
    }
  }

  lemma ChunkedSnoc<T>(xs: seq<T>, x: T, bs: seq<byte>, c: seq<byte>, size: T -> nat, rel: (T, seq<byte>) -> bool)
    requires |c| == size(x) && rel(x, c) && Chunked(xs, bs, size, rel)
    ensures Chunked(xs + [x], bs + c, size, rel)
  {
    ChunkedCons(x, [], c, [], size, rel);
    assert [x] + [] == [x] && c + [] == c;
    ChunkedConcat(xs, [x], bs, c, size, rel);
  }

  /** The chunks of a prefix of the list are a prefix of the bytes. */
  lemma {:induction false} ChunkedSplit<T>(xs: seq<T>, bs: seq<byte>, i: nat,
                                           size: T -> nat, rel: (T, seq<byte>) -> bool)
    requires Chunked(xs, bs, size, rel) && i <= |xs|
    ensures SizeSum(xs[..i], size) <= |bs|
    ensures Chunked(xs[..i], bs[..SizeSum(xs[..i], size)], size, rel)
    ensures Chunked(xs[i..], bs[SizeSum(xs[..i], size)..], size, rel)
  {
    if i > 0 {
      var n := size(xs[0]);
      ChunkedSplit(xs[1..], bs[n..], i - 1, size, rel);
      var k := SizeSum(xs[1..][..i - 1], size);
      assert xs[..i] == [xs[0]] + xs[1..][..i - 1];
      assert xs[..i][1..] == xs[1..][..i - 1];
      assert xs[1..][i - 1..] == xs[i..];
      assert bs[n..][k..] == bs[n + k..];
      ChunkedCons(xs[0], xs[1..][..i - 1], bs[..n], bs[n..][..k], size, rel);
      assert bs[..n] + bs[n..][..k] == bs[..n + k];
    }
  }

  lemma {:induction false} SizeSumConcat<T>(xs: seq<T>, ys: seq<T>, size: T -> nat)
    ensures SizeSum(xs + ys, size) == SizeSum(xs, size) + SizeSum(ys, size)
  {
    if xs == [] {
      assert xs + ys == ys;
    } else {
      SizeSumConcat(xs[1..], ys, size);
      assert (xs + ys)[1..] == xs[1..] + ys;
    }
  }

  lemma SizeSumSnoc<T>(xs: seq<T>, x: T, size: T -> nat)
    ensures SizeSum(xs + [x], size) == SizeSum(xs, size) + size(x)
  {
    SizeSumConcat(xs, [x], size);
    assert SizeSum([x], size) == size(x) + SizeSum([], size);
  }

  /** The lists `f(x)` for each element in turn, joined. */
  function FlatMap<A, B>(xs: seq<A>, f: A -> seq<B>): seq<B> {
    if xs == [] then [] else f(xs[0]) + FlatMap(xs[1..], f)
  }

  lemma Associative<B>(a: seq<B>, b: seq<B>, c: seq<B>)
    ensures a + (b + c) == (a + b) + c
  {
  }

  lemma {:induction false} FlatMapConcat<A, B>(xs: seq<A>, ys: seq<A>, f: A -> seq<B>)
    ensures FlatMap(xs + ys, f) == FlatMap(xs, f) + FlatMap(ys, f)
  {
    if xs == [] {
      assert xs + ys == ys;
    } else {
      FlatMapConcat(xs[1..], ys, f);
      assert (xs + ys)[1..] == xs[1..] + ys;
      Associative(f(xs[0]), FlatMap(xs[1..], f), FlatMap(ys, f));
    }
  }

  lemma FlatMapSingle<A, B>(x: A, f: A -> seq<B>)
    ensures FlatMap([x], f) == f(x)
  {
    assert FlatMap([x], f) == f(x) + FlatMap([], f);
  }

  lemma FlatMapSnoc<A, B>(xs: seq<A>, x: A, f: A -> seq<B>)
    ensures FlatMap(xs + [x], f) == FlatMap(xs, f) + f(x)
  {
    FlatMapConcat(xs, [x], f);
    FlatMapSingle(x, f);
  }

  /** The index of the first element satisfying `p`, or the length of the list. */
  function FirstIndex<T>(xs: seq<T>, p: T -> bool): (i: nat)
    ensures i <= |xs|
    ensures i < |xs| ==> p(xs[i])
    ensures forall j :: 0 <= j < i ==> !p(xs[j])
  {
    if xs == [] || p(xs[0]) then 0 else 1 + FirstIndex(xs[1..], p)
  }

  /** Whether the first element is found in a prefix, and where it is found otherwise. */
  lemma {:induction false} FirstIndexSplit<T>(xs: seq<T>, j: nat, p: T -> bool)
    requires j <= |xs|
    ensures FirstIndex(xs[..j], p) < j ==> FirstIndex(xs, p) == FirstIndex(xs[..j], p)
    ensures FirstIndex(xs[..j], p) == j ==> FirstIndex(xs, p) == j + FirstIndex(xs[j..], p)
  {
    if j > 0 && !p(xs[0]) {
      FirstIndexSplit(xs[1..], j - 1, p);
      assert xs[..j][1..] == xs[1..][..j - 1];
      assert xs[1..][j - 1..] == xs[j..];
    }
  }
}
