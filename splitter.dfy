/** `splitter(seq, chnks)`: cuts a list into `chnks` consecutive slices whose
    boundaries are `round(i * len(seq) / chnks)`. */
module Splitter {
  import opened Results
  import opened Seqs

  /** `chnks > len(seq)` raises `Exception`; `chnks == 0` raises
      `ZeroDivisionError` in `1.0/chnks`. */
  datatype SplitError = TooManyChunks | DivisionByZero

  /** The i-th slice boundary, Python 2 `round(i * len / chunks)` computed over
      exact rationals: the nearest integer, a half rounded up (away from zero, as
      every value here is non-negative). It lies within one half of the exact
      quotient, an exact half going up. */
  function Boundary(i: nat, len: nat, chunks: nat): (b: nat)
    requires chunks > 0
    ensures 2 * chunks * b <= 2 * i * len + chunks < 2 * chunks * (b + 1)
  {
    var a, d := 2 * i * len + chunks, 2 * chunks;
    assert a == d * (a / d) + a % d;
    a / d
  }

  lemma MulCancel(c: int, x: int, y: int)
    requires c > 0 && c * x < c * y
    ensures x < y
  {
  }

  lemma MulMono(x: int, y: int, c: nat)
    requires x <= y
    ensures x * c <= y * c
  {
    assert y * c - x * c == (y - x) * c;
  }

  /** Boundaries never decrease. */
  lemma BoundaryMonotone(i: nat, j: nat, len: nat, chunks: nat)
    requires chunks > 0 && i <= j
    ensures Boundary(i, len, chunks) <= Boundary(j, len, chunks)
  {
    var bi, bj := Boundary(i, len, chunks), Boundary(j, len, chunks);
    MulMono(i, j, len);
    assert 2 * i * len <= 2 * j * len;
    assert 2 * chunks * bi < 2 * chunks * (bj + 1);
    MulCancel(2 * chunks, bi, bj + 1);
  }

  /** The first boundary is 0 and the last is the list's length. */
  lemma BoundaryEnds(len: nat, chunks: nat)
    requires chunks > 0
    ensures Boundary(0, len, chunks) == 0
    ensures Boundary(chunks, len, chunks) == len
  {
    var b0 := Boundary(0, len, chunks);
    assert 2 * chunks * b0 < 2 * chunks * 1;
    MulCancel(2 * chunks, b0, 1);
    var b := Boundary(chunks, len, chunks);
    assert 2 * chunks * len == 2 * len * chunks;
    assert 2 * chunks * b < 2 * chunks * (len + 1);
    MulCancel(2 * chunks, b, len + 1);
    assert 2 * chunks * len < 2 * chunks * (b + 1);
    MulCancel(2 * chunks, len, b + 1);
  }

  /** Every boundary up to `chunks` lies within the list. */
  lemma BoundaryInRange(i: nat, len: nat, chunks: nat)
    requires 0 < chunks && i <= chunks
    ensures Boundary(i, len, chunks) <= len
  {
    BoundaryMonotone(i, chunks, len, chunks);
    BoundaryEnds(len, chunks);
  }

  /** Consecutive boundaries are `len / chunks` or `len / chunks + 1` apart
      (integer division): the slices are roughly equal. */
  /** Two roundings `b0` of `a / d` and `b1` of `(a + l2) / d`, with `l2 / d`
      between `q` and `q + 1`, lie `q` or `q + 1` apart. */
  lemma RoundedGap(a: int, l2: int, d: int, b0: int, b1: int, q: int)
    requires d > 0
    requires d * b0 <= a < d * (b0 + 1)
    requires d * b1 <= a + l2 < d * (b1 + 1)
    requires d * q <= l2 < d * q + d
    ensures q <= b1 - b0 <= q + 1
  {
    assert d * (b1 - b0) == d * b1 - d * b0;
    assert d * (q + 2) == d * q + 2 * d;
    MulCancel(d, b1 - b0, q + 2);
    assert d * (b1 + 1 - b0) == d * (b1 + 1) - d * b0;
    MulCancel(d, q, b1 + 1 - b0);
  }

  /** Consecutive boundaries are `len / chunks` or `len / chunks + 1` apart
      (integer division): the slices are roughly equal. */
  lemma BoundaryStep(i: nat, len: nat, chunks: nat)
    requires chunks > 0
    ensures len / chunks <= Boundary(i + 1, len, chunks) - Boundary(i, len, chunks) <= len / chunks + 1
    ensures chunks <= len ==> len / chunks > 0
  {
    var b0, b1 := Boundary(i, len, chunks), Boundary(i + 1, len, chunks);
    var q, r := len / chunks, len % chunks;
    assert len == chunks * q + r;
    assert 2 * (i + 1) * len + chunks == (2 * i * len + chunks) + 2 * len;
    assert 2 * len == 2 * chunks * q + 2 * r;
    RoundedGap(2 * i * len + chunks, 2 * len, 2 * chunks, b0, b1, q);
  }

  /** Slice `i` of `s` in `chunks` parts: `s[round(i*L/C) : round((i+1)*L/C)]`. */
  function Chunk<T>(s: seq<T>, i: nat, chunks: nat): (r: seq<T>)
    requires i < chunks
    ensures |s| / chunks <= |r| <= |s| / chunks + 1
    ensures chunks <= |s| ==> r != []
  {
    BoundaryMonotone(i, i + 1, |s|, chunks);
    BoundaryInRange(i + 1, |s|, chunks);
    BoundaryStep(i, |s|, chunks);
    s[Boundary(i, |s|, chunks)..Boundary(i + 1, |s|, chunks)]
  }

  /** `splitter(s, chunks)`. On success the result has exactly `chunks`
      slices, slice `i` is `s[round(i*L/C) .. round((i+1)*L/C)]`, the slices
      concatenate back to `s`, and each has `L/C` or `L/C + 1` elements (so none
      is empty). */
  method Split<T>(s: seq<T>, chunks: int) returns (r: Result<seq<seq<T>>, SplitError>)
    ensures chunks > |s| <==> r == Failure(TooManyChunks)
    ensures chunks == 0 <==> r == Failure(DivisionByZero)
    ensures chunks < 0 ==> r == Success([])
    ensures 0 < chunks <= |s| ==>
      && r.Success?
      && |r.value| == chunks
      && Concat(r.value) == s
      && (forall i :: 0 <= i < chunks ==>
            r.value[i] == Chunk(s, i, chunks))
      && (forall i :: 0 <= i < chunks ==>
            0 < |s| / chunks <= |r.value[i]| <= |s| / chunks + 1)
  {
    if chunks > |s| {
      return Failure(TooManyChunks);
    }
    if chunks == 0 {
      return Failure(DivisionByZero);
    }
    if chunks < 0 {
      // range(chnks) is empty
      return Success([]);
    }
    var c: nat := chunks;
    var parts: seq<seq<T>> := [];
    BoundaryEnds(|s|, c);
    for i := 0 to c
      invariant |parts| == i
      invariant forall k :: 0 <= k < i ==> parts[k] == Chunk(s, k, c)
      invariant forall k :: 0 <= k < i ==> 0 < |s| / c <= |parts[k]| <= |s| / c + 1
      invariant Boundary(i, |s|, c) <= |s|
      invariant Concat(parts) == s[..Boundary(i, |s|, c)]
    {
      var lo, hi := Boundary(i, |s|, c), Boundary(i + 1, |s|, c);
      BoundaryMonotone(i, i + 1, |s|, c);
      BoundaryInRange(i + 1, |s|, c);
      BoundaryStep(i, |s|, c);
      ConcatSnoc(parts, s[lo..hi]);
      assert s[..lo] + s[lo..hi] == s[..hi];
      parts := parts + [s[lo..hi]];
    }
    assert s[..|s|] == s;
    return Success(parts);
  }
}
