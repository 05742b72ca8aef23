/** Models of the Python built-ins and numpy routines that the patch code is
    written in terms of: `range`, basic slicing (which clips a bound past the
    end), row-major flattening, `numpy.array_split`, `int(round(sqrt(n)))`
    and the order of a nested list comprehension. Each is a plain function
    here, with lemmas that characterise it independently of its definition. */
module Builtins {

  datatype Option<+T> = None | Some(value: T)

  function Min(a: int, b: int): int
  {
    if a <= b then a else b
  }

  /** s holds v at position k. */
  ghost predicate At<T>(s: seq<T>, k: int, v: T)
  {
    0 <= k < |s| && s[k] == v
  }

  // ---------------------------------------------------------------------
  // Integer division facts used below
  // ---------------------------------------------------------------------

  lemma {:induction false} MulLeq(a: int, b: int, c: nat)
    requires a <= b
    ensures a * c <= b * c
  {
    assert b * c - a * c == (b - a) * c;
  }

  /** A non-zero multiple of d is at least d away from zero. */
  lemma {:induction false} MulAtLeast(k: int, d: nat)
    ensures k >= 1 ==> k * d >= d
    ensures k <= 0 ==> k * d <= 0
    ensures k <= -1 ==> k * d + d <= 0
  {
    if k >= 1 {
      MulLeq(1, k, d);
    } else if k <= -1 {
      MulLeq(k, -1, d);
    } else {
      assert k == 0;
    }
  }

  lemma {:induction false} MulSucc(i: int, step: int)
    ensures i * step + step == (i + 1) * step
  {
  }

  lemma {:induction false} MulAdd(a: int, b: int, c: int)
    ensures (a + b) * c == a * c + b * c
  {
  }

  /** Row-major positions stay inside the whole: i * w + j < n * w. */
  lemma {:induction false} IndexBound(i: nat, j: nat, n: nat, w: nat)
    requires i < n && j < w
    ensures i * w + j < n * w
  {
    MulSucc(i, w);
    MulLeq(i + 1, n, w);
  }

  /** Euclidean division splits x into quotient and remainder. */
  lemma DivMod(x: int, d: int)
    requires d >= 1
    ensures x == (x / d) * d + x % d && 0 <= x % d < d
  {
  }

  lemma {:induction false} ModBound(x: int, d: int)
    requires d >= 1
    ensures x >= 0 ==> x % d <= x && x / d >= 0
  {
    if x >= 0 {
      MulAtLeast(x / d, d);
    }
  }

  lemma {:induction false} DivPositive(x: int, d: int)
    requires x >= d >= 1
    ensures x / d >= 1
  {
    MulAtLeast(x / d, d);
  }

  /** Euclidean division has a unique quotient and remainder. */
  lemma {:induction false} DivUnique(x: int, d: int, q: int, r: int)
    requires d >= 1 && 0 <= r < d && x == q * d + r
    ensures x / d == q && x % d == r
  {
    var k := q - x / d;
    assert k * d == x % d - r by {
      assert k * d == q * d - (x / d) * d;
    }
    MulAtLeast(k, d);
  }

  // ---------------------------------------------------------------------
  // range(start, stop, step)
  // ---------------------------------------------------------------------

  /** Python's `range(start, stop, step)` for a positive step: start,
      start + step, ... for as long as the value stays below stop. */
  function Range(start: nat, stop: int, step: nat): seq<nat>
    requires step >= 1
    decreases stop - start
  {
    if start >= stop then [] else [start] + Range(start + step, stop, step)
  }

  /** The i-th element of a range is start + i * step and lies below
      stop; the range is empty exactly when start >= stop, and otherwise
      one more step would reach stop. */
  lemma {:induction false} RangeAt(start: nat, stop: int, step: nat)
    requires step >= 1
    ensures |Range(start, stop, step)| == 0 <==> start >= stop
    ensures forall i :: 0 <= i < |Range(start, stop, step)| ==>
              Range(start, stop, step)[i] == start + i * step < stop
    ensures |Range(start, stop, step)| > 0 ==> stop <= start + |Range(start, stop, step)| * step
    decreases stop - start
  {
    if start < stop {
      var r := Range(start, stop, step);
      var rest := Range(start + step, stop, step);
      RangeAt(start + step, stop, step);
      assert r == [start] + rest;
      forall i | 0 <= i < |r|
        ensures r[i] == start + i * step < stop
      {
        if i > 0 {
          assert r[i] == rest[i - 1];
          MulSucc(i - 1, step);
        }
      }
      MulSucc(|rest|, step);
    }
  }

  /** A non-empty range(start, stop, step) has (stop - 1 - start) / step + 1
      elements. */
  lemma {:induction false} RangeLength(start: nat, stop: int, step: nat)
    requires step >= 1 && start < stop
    ensures |Range(start, stop, step)| == (stop - 1 - start) / step + 1
  {
    RangeAt(start, stop, step);
    var n := |Range(start, stop, step)|;
    assert Range(start, stop, step)[n - 1] == start + (n - 1) * step;
    assert (n - 1) * step + step == n * step;
    var x := stop - 1 - start;
    DivUnique(x, step, n - 1, x - (n - 1) * step);
  }

  // ---------------------------------------------------------------------
  // Basic slicing
  // ---------------------------------------------------------------------

  /** `s[lo:hi]` for non-negative bounds. Python clips a bound that lies
      past the end of the sequence to its end, and an empty or inverted
      range gives the empty sequence. */
  function Slice<T>(s: seq<T>, lo: nat, hi: nat): (r: seq<T>)
    ensures lo <= hi <= |s| ==> |r| == hi - lo
    ensures lo <= |s| <= hi ==> |r| == |s| - lo
    ensures hi <= lo || |s| <= lo ==> r == []
    ensures forall i :: 0 <= i < |r| ==> r[i] == s[lo + i]
  {
    if hi <= lo || |s| <= lo then [] else s[lo..if hi <= |s| then hi else |s|]
  }

  /** Two-axis basic slicing `a[r0:r1, c0:c1]` of an array viewed as a
      sequence of rows; a trailing axis is carried along whole. */
  function Block<T>(rows: seq<seq<T>>, r0: nat, r1: nat, c0: nat, c1: nat): (b: seq<seq<T>>)
    ensures |b| == |Slice(rows, r0, r1)|
    ensures forall i :: 0 <= i < |b| ==> b[i] == Slice(rows[r0 + i], c0, c1)
  {
    var picked := Slice(rows, r0, r1);
    seq(|picked|, i requires 0 <= i < |picked| => Slice(picked[i], c0, c1))
  }

  /** Row i of a block is the slice of row r0 + i. */
  lemma {:induction false} BlockRow<T>(rows: seq<seq<T>>, r0: nat, r1: nat, c0: nat, c1: nat, i: nat)
    requires r0 + i < r1 <= |rows|
    ensures i < |Block(rows, r0, r1, c0, c1)| && Block(rows, r0, r1, c0, c1)[i] == Slice(rows[r0 + i], c0, c1)
  {
  }

  /** Slicing a slice: w elements from b0 of s[c0:c1] are w elements
      from tx = c0 + b0 of s. */
  lemma {:induction false} SliceOfSlice<T>(s: seq<T>, c0: nat, c1: nat, b0: nat, w: nat, tx: nat)
    requires c0 + b0 + w <= c1 <= |s| && tx == c0 + b0
    ensures Slice(Slice(s, c0, c1), b0, b0 + w) == Slice(s, tx, tx + w)
  {
    var l := Slice(Slice(s, c0, c1), b0, b0 + w);
    var r := Slice(s, tx, tx + w);
    assert |Slice(s, c0, c1)| == c1 - c0;
    assert |l| == w == |r|;
    forall k | 0 <= k < w
      ensures l[k] == r[k]
    {
    }
  }

  /** Row i of the inner block of h rows and w columns from (a0, b0) of
      rows[r0:r1, c0:c1] is row i of the block from (ty, tx) = (r0 + a0,
      c0 + b0) of rows. */
  lemma {:induction false} BlockOfBlockRow<T>(rows: seq<seq<T>>, r0: nat, r1: nat, c0: nat, c1: nat,
                                              a0: nat, b0: nat, h: nat, w: nat, ty: nat, tx: nat, i: nat)
    requires r0 + a0 + h <= r1 <= |rows| && c0 + b0 + w <= c1
    requires forall i :: r0 <= i < r1 ==> c1 <= |rows[i]|
    requires ty == r0 + a0 && tx == c0 + b0 && i < h
    ensures var lhs := Block(Block(rows, r0, r1, c0, c1), a0, a0 + h, b0, b0 + w);
            var rhs := Block(rows, ty, ty + h, tx, tx + w);
            i < |lhs| && i < |rhs| && lhs[i] == rhs[i]
  {
    var outer := Block(rows, r0, r1, c0, c1);
    BlockRow(outer, a0, a0 + h, b0, b0 + w, i);
    BlockRow(rows, r0, r1, c0, c1, a0 + i);
    assert r0 + (a0 + i) == ty + i;
    SliceOfSlice(rows[ty + i], c0, c1, b0, w, tx);
    BlockRow(rows, ty, ty + h, tx, tx + w, i);
  }

  /** Slicing a block: the inner block of h rows and w columns from
      (a0, b0) of rows[r0:r1, c0:c1] starts at (ty, tx) = (r0 + a0,
      c0 + b0) of rows. */
  lemma {:induction false} BlockOfBlock<T>(rows: seq<seq<T>>, r0: nat, r1: nat, c0: nat, c1: nat,
                                           a0: nat, b0: nat, h: nat, w: nat, ty: nat, tx: nat)
    requires r0 + a0 + h <= r1 <= |rows| && c0 + b0 + w <= c1
    requires forall i :: r0 <= i < r1 ==> c1 <= |rows[i]|
    requires ty == r0 + a0 && tx == c0 + b0
    ensures Block(Block(rows, r0, r1, c0, c1), a0, a0 + h, b0, b0 + w) == Block(rows, ty, ty + h, tx, tx + w)
  {
    var lhs := Block(Block(rows, r0, r1, c0, c1), a0, a0 + h, b0, b0 + w);
    var rhs := Block(rows, ty, ty + h, tx, tx + w);
    forall i | 0 <= i < h
      ensures i < |lhs| && i < |rhs| && lhs[i] == rhs[i]
    {
      BlockOfBlockRow(rows, r0, r1, c0, c1, a0, b0, h, w, ty, tx, i);
    }
    SameElements(lhs, rhs, h);
  }

  /** Two sequences of length n with the same elements are equal. */
  lemma SameElements<T>(a: seq<T>, b: seq<T>, n: nat)
    requires |a| == n && |b| == n
    requires forall i :: 0 <= i < n ==> a[i] == b[i]
    ensures a == b
  {
  }

  // ---------------------------------------------------------------------
  // Row-major flattening (numpy reshape / flatten)
  // ---------------------------------------------------------------------

  function Concat<T>(ss: seq<seq<T>>): seq<T>
  {
    if |ss| == 0 then [] else ss[0] + Concat(ss[1..])
  }

  lemma {:induction false} ConcatLength<T>(ss: seq<seq<T>>, w: nat)
    requires forall i :: 0 <= i < |ss| ==> |ss[i]| == w
    ensures |Concat(ss)| == |ss| * w
  {
    if |ss| > 0 {
      ConcatLength(ss[1..], w);
      MulSucc(|ss| - 1, w);
    }
  }

  lemma {:induction false} ConcatAt<T>(ss: seq<seq<T>>, w: nat, i: nat, j: nat)
    requires forall i :: 0 <= i < |ss| ==> |ss[i]| == w
    requires i < |ss| && j < w
    ensures At(Concat(ss), i * w + j, ss[i][j])
  {
    var tail := ss[1..];
    ConcatLength(tail, w);
    assert Concat(ss) == ss[0] + Concat(tail);
    if i > 0 {
      ConcatAt(tail, w, i - 1, j);
      MulSucc(i - 1, w);
    }
  }

  /** `block.flatten()` for a rows x cols x channels block: row-major
      order, the channel index varying fastest. */
  function Flatten<T>(block: seq<seq<seq<T>>>): seq<T>
  {
    Concat(seq(|block|, i requires 0 <= i < |block| => Concat(block[i])))
  }

  lemma {:induction false} FlatIndex(i: nat, j: nat, k: nat, w: nat, c: nat)
    requires j < w && k < c
    ensures (i * w + j) * c + k == i * (w * c) + (j * c + k)
    ensures j * c + k < w * c
  {
    IndexBound(j, k, w, c);
  }

  /** A block of rows of w pixels of c channels each. */
  ghost predicate Uniform<T>(block: seq<seq<seq<T>>>, w: nat, c: nat)
  {
    (forall i :: 0 <= i < |block| ==> |block[i]| == w) &&
    (forall i, j :: 0 <= i < |block| && 0 <= j < w ==> |block[i][j]| == c)
  }

  /** Entry (i, j, k) of a uniform block flattens to position
      (i * w + j) * c + k. */
  lemma {:induction false} FlattenEntry<T>(block: seq<seq<seq<T>>>, w: nat, c: nat, i: nat, j: nat, k: nat)
    requires Uniform(block, w, c)
    requires i < |block| && j < w && k < c
    ensures At(Flatten(block), (i * w + j) * c + k, block[i][j][k])
  {
    var flatRows := seq(|block|, i requires 0 <= i < |block| => Concat(block[i]));
    forall i | 0 <= i < |block|
      ensures |flatRows[i]| == w * c
    {
      ConcatLength(block[i], c);
    }
    FlatIndex(i, j, k, w, c);
    ConcatAt(block[i], c, j, k);
    ConcatAt(flatRows, w * c, i, j * c + k);
  }

  /** A uniform block flattens to |block| * w * c values. */
  lemma {:induction false} FlattenLength<T>(block: seq<seq<seq<T>>>, w: nat, c: nat)
    requires Uniform(block, w, c)
    ensures |Flatten(block)| == |block| * (w * c)
  {
    var flatRows := seq(|block|, i requires 0 <= i < |block| => Concat(block[i]));
    forall i | 0 <= i < |block|
      ensures |flatRows[i]| == w * c
    {
      ConcatLength(block[i], c);
    }
    ConcatLength(flatRows, w * c);
  }

  // ---------------------------------------------------------------------
  // numpy.array_split(s, n)
  // ---------------------------------------------------------------------

  /** The size numpy.array_split gives section i when it cuts `total`
      elements into n sections: total / n, plus one for each of the first
      total % n sections. */
  function SectionSize(total: nat, n: nat, i: nat): nat
    requires n >= 1
  {
    total / n + (if i < total % n then 1 else 0)
  }

  /** Where section i starts: the running sum of the sizes before it. */
  function DivPoint(total: nat, n: nat, i: nat): nat
    requires n >= 1
  {
    if i == 0 then 0 else DivPoint(total, n, i - 1) + SectionSize(total, n, i - 1)
  }

  lemma {:induction false} DivPointClosed(total: nat, n: nat, i: nat)
    requires n >= 1
    ensures DivPoint(total, n, i) == i * (total / n) + Min(i, total % n)
  {
    if i > 0 {
      DivPointClosed(total, n, i - 1);
      MulSucc(i - 1, total / n);
    }
  }

  lemma {:induction false} DivPointBound(total: nat, n: nat, i: nat)
    requires n >= 1 && i <= n
    ensures DivPoint(total, n, i) <= total
    ensures i == n ==> DivPoint(total, n, i) == total
  {
    var q, m := total / n, total % n;
    DivPointClosed(total, n, i);
    assert DivPoint(total, n, i) == i * q + Min(i, m);
    DivMod(total, n);
    assert n * q + m == total;
    if i == n {
      assert Min(i, m) == m;
    } else {
      MulLeq(i, n, q);
    }
  }

  /** `numpy.array_split(s, n)`: n contiguous sections, cut at the
      DivPoint boundaries. */
  function ArraySplit<T>(s: seq<T>, n: nat): (r: seq<seq<T>>)
    requires n >= 1
    ensures |r| == n
  {
    seq(n, i requires 0 <= i < n =>
      DivPointBound(|s|, n, i + 1);
      s[DivPoint(|s|, n, i)..DivPoint(|s|, n, i + 1)])
  }

  /** Section i of array_split(s, n) is s[DivPoint(i) .. DivPoint(i + 1)]. */
  ghost predicate IsSection<T>(s: seq<T>, n: nat, i: nat)
    requires n >= 1 && i < n
  {
    DivPoint(|s|, n, i) <= DivPoint(|s|, n, i + 1) <= |s| &&
    ArraySplit(s, n)[i] == s[DivPoint(|s|, n, i)..DivPoint(|s|, n, i + 1)]
  }

  lemma {:induction false} SectionAt<T>(s: seq<T>, n: nat, i: nat)
    requires n >= 1 && i < n
    ensures IsSection(s, n, i)
    ensures |ArraySplit(s, n)[i]| == |s| / n + (if i < |s| % n then 1 else 0)
  {
    DivPointBound(|s|, n, i + 1);
  }

  /** Section i is the contiguous run s[DivPoint(i) .. DivPoint(i + 1)];
      sections are listed left to right and their sizes are |s| / n plus
      one for the first |s| % n of them, so sizes differ by at most one
      and the larger come first. */
  lemma ArraySplitSections<T>(s: seq<T>, n: nat)
    requires n >= 1
    ensures forall i :: 0 <= i < n ==> IsSection(s, n, i)
    ensures forall i :: 0 <= i < n ==>
              |ArraySplit(s, n)[i]| == |s| / n + (if i < |s| % n then 1 else 0)
  {
    forall i | 0 <= i < n
      ensures IsSection(s, n, i)
      ensures |ArraySplit(s, n)[i]| == |s| / n + (if i < |s| % n then 1 else 0)
    {
      SectionAt(s, n, i);
    }
  }

  /** A section is non-empty exactly when its index is below
      min(n, |s|): once there are fewer elements than sections the
      trailing sections are empty. */
  lemma {:induction false} ArraySplitNonEmpty<T>(s: seq<T>, n: nat)
    requires n >= 1
    ensures forall i :: 0 <= i < n ==> (|ArraySplit(s, n)[i]| > 0 <==> i < Min(n, |s|))
  {
    ArraySplitSections(s, n);
    if |s| < n {
      DivUnique(|s|, n, 0, |s|);
    } else {
      DivPositive(|s|, n);
    }
  }

  /** Splitting loses and reorders nothing: the sections concatenate back
      to the input. */
  lemma {:induction false} ArraySplitConcat<T>(s: seq<T>, n: nat)
    requires n >= 1
    ensures Concat(ArraySplit(s, n)) == s
  {
    ConcatSectionsFrom(s, n, 0);
    assert ArraySplit(s, n)[0..] == ArraySplit(s, n);
  }

  lemma {:induction false} ConcatSectionsFrom<T>(s: seq<T>, n: nat, k: nat)
    requires n >= 1 && k <= n
    ensures DivPoint(|s|, n, k) <= |s|
    ensures Concat(ArraySplit(s, n)[k..]) == s[DivPoint(|s|, n, k)..]
    decreases n - k
  {
    var parts := ArraySplit(s, n);
    if k == n {
      DivPointBound(|s|, n, n);
      assert parts[k..] == [];
    } else {
      ConcatSectionsFrom(s, n, k + 1);
      assert parts[k..][0] == parts[k];
      assert parts[k..][1..] == parts[k + 1..];
      SectionAt(s, n, k);
      var a, b := DivPoint(|s|, n, k), DivPoint(|s|, n, k + 1);
      assert s[a..b] + s[b..] == s[a..];
    }
  }

  // ---------------------------------------------------------------------
  // int(round(sqrt(n)))
  // ---------------------------------------------------------------------

  /** `int(round(sqrt(n)))` on a non-negative integer: the k with
      k*k - k < n <= k*k + k, found by counting up from 0. The square
      root of an integer is never a half-integer, so rounding has no ties. */
  function RoundSqrt(n: nat): (k: nat)
    ensures n == 0 ==> k == 0
    ensures n >= 1 ==> k >= 1 && k * k - k < n <= k * k + k
  {
    RootFrom(n, 0)
  }

  function RootFrom(n: nat, k: nat): (r: nat)
    requires k == 0 || k * k - k < n
    ensures r >= k
    ensures n <= r * r + r
    ensures r == k || r * r - r < n
    decreases n - k
  {
    if n <= k * k + k then k else RootFrom(n, k + 1)
  }

  lemma {:induction false} SquareLeq(a: int, b: int)
    requires 0 <= a <= b
    ensures a * a <= b * b
  {
    MulLeq(a, b, a);
    MulLeq(a, b, b);
  }

  /** RoundSqrt(n) is the integer nearest to sqrt(n):
      |k - sqrt(n)| < 1/2, written without square roots. */
  lemma {:induction false} RoundSqrtNearest(n: nat)
    requires n >= 1
    ensures var k := RoundSqrt(n);
            (2 * k - 1) * (2 * k - 1) < 4 * n < (2 * k + 1) * (2 * k + 1)
  {
    var k := RoundSqrt(n);
    OddSquares(k);
  }

  lemma OddSquares(k: int)
    ensures (2 * k - 1) * (2 * k - 1) == 4 * (k * k - k) + 1
    ensures (2 * k + 1) * (2 * k + 1) == 4 * (k * k + k) + 1
  {
  }

  /** No other integer is that close to sqrt(n). */
  lemma {:induction false} RoundSqrtUnique(n: nat, m: nat)
    requires n >= 1
    requires (2 * m - 1) * (2 * m - 1) < 4 * n < (2 * m + 1) * (2 * m + 1)
    ensures m == RoundSqrt(n)
  {
    var k := RoundSqrt(n);
    RoundSqrtNearest(n);
    if m > k {
      SquareLeq(2 * k + 1, 2 * m - 1);
    } else if m < k {
      SquareLeq(2 * m + 1, 2 * k - 1);
    }
  }

  // ---------------------------------------------------------------------
  // [f(y, x) for y in ys for x in xs]
  // ---------------------------------------------------------------------

  /** `[f(y, x) for x in xs]`, built left to right. */
  function Row<A, B, C>(y: A, xs: seq<B>, f: (A, B) -> C): (r: seq<C>)
    ensures |r| == |xs|
    ensures forall j :: 0 <= j < |xs| ==> r[j] == f(y, xs[j])
  {
    if |xs| == 0 then [] else Row(y, xs[..|xs| - 1], f) + [f(y, xs[|xs| - 1])]
  }

  /** `[f(y, x) for y in ys for x in xs]`: every x for the first y, then
      every x for the next y, and so on (row-major order). */
  function RowMajor<A, B, C>(ys: seq<A>, xs: seq<B>, f: (A, B) -> C): (r: seq<C>)
    ensures |r| == |ys| * |xs|
  {
    if |ys| == 0 then []
    else
      MulSucc(|ys| - 1, |xs|);
      RowMajor(ys[..|ys| - 1], xs, f) + Row(ys[|ys| - 1], xs, f)
  }

  /** Extending the column list by one extends the row by one entry. */
  lemma {:induction false} RowStep<A, B, C>(y: A, xs: seq<B>, f: (A, B) -> C, j: nat)
    requires j < |xs|
    ensures Row(y, xs[..j + 1], f) == Row(y, xs[..j], f) + [f(y, xs[j])]
  {
    assert xs[..j + 1][..j] == xs[..j];
  }

  /** Extending the row list by one appends one whole row. */
  lemma {:induction false} RowMajorStep<A, B, C>(ys: seq<A>, xs: seq<B>, f: (A, B) -> C, i: nat)
    requires i < |ys|
    ensures RowMajor(ys[..i + 1], xs, f) == RowMajor(ys[..i], xs, f) + Row(ys[i], xs, f)
  {
    assert ys[..i + 1][..i] == ys[..i];
  }

  /** Entry (i, j) sits at i * width + j, width being the row length
      |xs|, passed as a number so that callers can name it. */
  lemma {:induction false} RowMajorEntry<A, B, C>(ys: seq<A>, xs: seq<B>, f: (A, B) -> C, i: nat, j: nat, width: nat)
    requires i < |ys| && j < |xs| && width == |xs|
    ensures At(RowMajor(ys, xs, f), i * width + j, f(ys[i], xs[j]))
  {
    var n := |ys| - 1;
    var front := ys[..n];
    assert RowMajor(ys, xs, f) == RowMajor(front, xs, f) + Row(ys[n], xs, f);
    if i < n {
      RowMajorEntry(front, xs, f, i, j, width);
      assert front[i] == ys[i];
    }
  }

  /** The row-major table of slices ps == ys[a..b] and qs == xs[c..e]
      holds, at the place k of (u, v), the entry the whole table holds at
      the place l of (u, v). */
  lemma {:induction false} RowMajorSlice<A, B, C>(ys: seq<A>, xs: seq<B>, f: (A, B) -> C, ps: seq<A>, qs: seq<B>,
                                                  a: nat, b: nat, c: nat, e: nat, u: nat, v: nat, k: nat, l: nat)
    requires a <= u < b <= |ys| && c <= v < e <= |xs|
    requires ps == ys[a..b] && qs == xs[c..e]
    requires k == (u - a) * (e - c) + (v - c) && l == u * |xs| + v
    ensures At(RowMajor(ps, qs, f), k, f(ys[u], xs[v]))
    ensures At(RowMajor(ys, xs, f), l, f(ys[u], xs[v]))
  {
    assert ps[u - a] == ys[u] && qs[v - c] == xs[v];
    RowMajorEntry(ps, qs, f, u - a, v - c, e - c);
    RowMajorEntry(ys, xs, f, u, v, |xs|);
  }

  /** Every position of the row-major product is some entry (i, j). */
  lemma {:induction false} RowMajorIndex<A, B, C>(ys: seq<A>, xs: seq<B>, f: (A, B) -> C, k: nat)
    returns (i: nat, j: nat)
    requires k < |RowMajor(ys, xs, f)|
    ensures i < |ys| && j < |xs| && k == i * |xs| + j
    ensures RowMajor(ys, xs, f)[k] == f(ys[i], xs[j])
  {
    var n := |ys| - 1;
    var front := ys[..n];
    var r := RowMajor(ys, xs, f);
    assert r == RowMajor(front, xs, f) + Row(ys[n], xs, f);
    if k < |RowMajor(front, xs, f)| {
      i, j := RowMajorIndex(front, xs, f, k);
      assert front[i] == ys[i];
    } else {
      i, j := n, k - n * |xs|;
    }
  }

  /** Two row-major products agree when they agree entry by entry. */
  lemma {:induction false} RowMajorCongruence<A, B, C, A', B'>(
    ys: seq<A>, xs: seq<B>, f: (A, B) -> C, ys': seq<A'>, xs': seq<B'>, g: (A', B') -> C)
    requires |ys| == |ys'| && |xs| == |xs'|
    requires forall i, j :: 0 <= i < |ys| && 0 <= j < |xs| ==> f(ys[i], xs[j]) == g(ys'[i], xs'[j])
    ensures RowMajor(ys, xs, f) == RowMajor(ys', xs', g)
  {
    if |ys| > 0 {
      var n := |ys| - 1;
      RowMajorCongruence(ys[..n], xs, f, ys'[..n], xs', g);
      assert Row(ys[n], xs, f) == Row(ys'[n], xs', g);
    }
  }
}
