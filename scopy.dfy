/**
 * scopy for IBM z: copy a strided vector x into a strided vector y. With
 * both strides 1 a block kernel moves 64 elements (256 bytes) per mvc and a
 * scalar loop copies the tail; otherwise one loop writes y[iy] = x[ix] with
 * independent running offsets. The return value is always 0.
 */
module SCopy {
  import opened Views

  /**
   * The buffer y after the first n stores of the general loop, in program
   * order: store k writes element k of x (offset k*incX) to offset k*incY.
   * A later store to the same offset overwrites an earlier one.
   */
  function Stores(y: seq<int>, x: seq<int>, incX: int, incY: int, n: nat): (r: seq<int>)
    requires Spans(|x|, 0, n, incX) && Spans(|y|, 0, n, incY)
    ensures |r| == |y|
    decreases n
  {
    if n == 0 then y
    else
      SpansPrefix(|x|, 0, n, incX, n - 1);
      SpansPrefix(|y|, 0, n, incY, n - 1);
      SpansIndex(|x|, 0, n, incX, n - 1);
      SpansIndex(|y|, 0, n, incY, n - 1);
      Stores(y, x, incX, incY, n - 1)[(n - 1) * incY := x[(n - 1) * incX]]
  }

  /** Distinct element numbers land on distinct offsets when the stride is not zero. */
  lemma MulCancel(j: int, k: int, inc: int)
    requires inc != 0 && j != k
    ensures j * inc != k * inc
  {
    var lo, hi := if j < k then j else k, if j < k then k else j;
    var a := if inc > 0 then inc else -inc;
    MulMono(1, hi - lo, a);
    assert (hi - lo) * a == hi * a - lo * a;
    assert hi * a == lo * a ==> hi * inc == lo * inc;
  }

  /** An offset of y that no store addresses keeps its old value. */
  lemma {:induction false} StoresUntouched(y: seq<int>, x: seq<int>, incX: int, incY: int, n: nat, p: int)
    requires Spans(|x|, 0, n, incX) && Spans(|y|, 0, n, incY) && 0 <= p < |y|
    requires forall k :: 0 <= k < n ==> p != k * incY
    ensures Stores(y, x, incX, incY, n)[p] == y[p]
    decreases n
  {
    if n > 0 {
      SpansPrefix(|x|, 0, n, incX, n - 1);
      SpansPrefix(|y|, 0, n, incY, n - 1);
      assert p != (n - 1) * incY;
      StoresUntouched(y, x, incX, incY, n - 1, p);
    }
  }

  /** With a non-zero destination stride, offset k*incY ends up holding element k of x. */
  lemma {:induction false} StoresAt(y: seq<int>, x: seq<int>, incX: int, incY: int, n: nat, k: int)
    requires Spans(|x|, 0, n, incX) && Spans(|y|, 0, n, incY) && incY != 0 && 0 <= k < n
    ensures 0 <= k * incX < |x| && 0 <= k * incY < |y|
    ensures Stores(y, x, incX, incY, n)[k * incY] == x[k * incX]
    decreases n
  {
    SpansIndex(|x|, 0, n, incX, k);
    SpansIndex(|y|, 0, n, incY, k);
    if k < n - 1 {
      SpansPrefix(|x|, 0, n, incX, n - 1);
      SpansPrefix(|y|, 0, n, incY, n - 1);
      MulCancel(k, n - 1, incY);
      StoresAt(y, x, incX, incY, n - 1, k);
    }
  }

  /** The copy: read back through y's stride, y holds x's vector. */
  lemma StoresCopies(y: seq<int>, x: seq<int>, incX: int, incY: int, n: nat)
    requires Spans(|x|, 0, n, incX) && Spans(|y|, 0, n, incY) && incY != 0
    ensures View(Stores(y, x, incX, incY, n), 0, n, incY) == View(x, 0, n, incX)
  {
    var r := Stores(y, x, incX, incY, n);
    var v := View(x, 0, n, incX);
    ViewGathers(x, 0, n, incX);
    forall k | 0 <= k < n
      ensures 0 <= 0 + k * incY < |r| && v[k] == r[0 + k * incY]
    {
      StoresAt(y, x, incX, incY, n, k);
    }
    assert Gathers(r, 0, incY, v);
    GathersIsView(r, 0, incY, v);
  }

  /** With destination stride 0 every store hits y[0]; the last one wins. */
  lemma StoresLastWins(y: seq<int>, x: seq<int>, incX: int, n: nat)
    requires Spans(|x|, 0, n, incX) && Spans(|y|, 0, n, 0) && n > 0
    ensures 0 <= (n - 1) * incX < |x| && Stores(y, x, incX, 0, n)[0] == x[(n - 1) * incX]
  {
    SpansIndex(|x|, 0, n, incX, n - 1);
  }

  /** With both strides 1 the stores give y[0..n) == x[0..n) and leave the rest of y. */
  lemma {:induction false} StoresUnit(y: seq<int>, x: seq<int>, n: nat)
    requires n <= |x| && n <= |y|
    ensures Spans(|x|, 0, n, 1) && Spans(|y|, 0, n, 1)
    ensures Stores(y, x, 1, 1, n) == x[..n] + y[n..]
    decreases n
  {
    if n > 0 {
      StoresUnit(y, x, n - 1);
      var r := Stores(y, x, 1, 1, n - 1);
      assert (x[..n - 1] + y[n - 1..])[n - 1 := x[n - 1]] == x[..n] + y[n..];
    }
  }

  /**
   * The block kernel scopy_kernel_64: n >> 6 rounds, each an mvc of
   * 256 bytes (64 elements) from r1 to r2, both advanced by 64 elements.
   */
  method SCopyKernel64(n: int, x: array<int>, y: array<int>)
    requires x != y && 64 <= n <= x.Length && n <= y.Length
    modifies y
    ensures y[..] == x[..n / 64 * 64] + old(y[..])[n / 64 * 64..]
  {
    var r0 := n / 64;
    var r1, r2 := 0, 0;
    // k rounds done
    ghost var k := 0;
    while r0 > 0
      invariant 0 <= k <= n / 64 && r0 == n / 64 - k && r1 == 64 * k && r2 == r1
      invariant forall p :: 0 <= p < r2 ==> y[p] == x[p]
      invariant forall p :: r2 <= p < y.Length ==> y[p] == old(y[p])
    {
      forall p | 0 <= p < 64 {
        y[r2 + p] := x[r1 + p];
      }
      r1 := r1 + 64;
      r2 := r2 + 64;
      r0 := r0 - 1;
      k := k + 1;
    }
    assert r2 == n / 64 * 64;
    assert y[..] == x[..r2] + old(y[..])[r2..];
  }

  /** The unit-stride path: the kernel on n & -64 elements, then the tail one by one. */
  method UnitStride(n: int, x: array<int>, y: array<int>)
    requires x != y && 0 < n <= x.Length && n <= y.Length
    modifies y
    ensures y[..] == x[..n] + old(y[..])[n..]
  {
    var n1 := AndNeg(n, 64);
    var i := 0;
    if n1 > 0 {
      SCopyKernel64(n1, x, y);
      i := n1;
    }
    while i < n
      invariant 0 <= i <= n && (forall p :: 0 <= p < i ==> y[p] == x[p])
      invariant forall p :: i <= p < y.Length ==> y[p] == old(y[p])
    {
      y[i] := x[i];
      i := i + 1;
    }
    assert y[..] == x[..n] + old(y[..])[n..];
  }

  /** One more store: where it reads and writes, and the buffer it leaves. */
  lemma StoresStep(y: seq<int>, x: seq<int>, incX: int, incY: int, n: nat, i: nat)
    requires Spans(|x|, 0, n, incX) && Spans(|y|, 0, n, incY) && i < n
    ensures Spans(|x|, 0, i, incX) && Spans(|y|, 0, i, incY)
    ensures Spans(|x|, 0, i + 1, incX) && Spans(|y|, 0, i + 1, incY)
    ensures 0 <= i * incX < |x| && 0 <= i * incY < |y|
    ensures Stores(y, x, incX, incY, i + 1) == Stores(y, x, incX, incY, i)[i * incY := x[i * incX]]
  {
    SpansPrefix(|x|, 0, n, incX, i + 1);
    SpansPrefix(|y|, 0, n, incY, i + 1);
    SpansPrefix(|x|, 0, n, incX, i);
    SpansPrefix(|y|, 0, n, incY, i);
    SpansIndex(|x|, 0, n, incX, i);
    SpansIndex(|y|, 0, n, incY, i);
  }

  /** The general path: store i writes y[iy] = x[ix] with ix == i*incX and iy == i*incY. */
  method StridedCopy(n: int, x: array<int>, incX: int, y: array<int>, incY: int)
    requires x != y && n > 0 && Spans(x.Length, 0, n, incX) && Spans(y.Length, 0, n, incY)
    modifies y
    ensures y[..] == Stores(old(y[..]), x[..], incX, incY, n)
  {
    ghost var xs, y0 := x[..], y[..];
    var i, ix, iy := 0, 0, 0;
    while i < n
      invariant 0 <= i <= n && ix == i * incX && iy == i * incY
      invariant Spans(|xs|, 0, i, incX) && Spans(|y0|, 0, i, incY)
      invariant y[..] == Stores(y0, xs, incX, incY, i)
    {
      StoresStep(y0, xs, incX, incY, n, i);
      StrideAdvance(ix, i, incX);
      StrideAdvance(iy, i, incY);
      ghost var before := y[..];
      y[iy] := x[ix];
      assert y[..] == before[iy := xs[ix]];
      ix := ix + incX;
      iy := iy + incY;
      i := i + 1;
    }
  }

  /**
   * The dispatcher. x and y may be null when n <= 0, as they are never
   * touched then; otherwise they are distinct buffers that hold every
   * offset the strides reach.
   */
  method SCopy(n: int, x: array?<int>, incX: int, y: array?<int>, incY: int) returns (r: int)
    requires n > 0 ==>
      x != null && y != null && x != y && Spans(x.Length, 0, n, incX) && Spans(y.Length, 0, n, incY)
    modifies y
    ensures r == 0
    ensures n <= 0 && y != null ==> y[..] == old(y[..])
    ensures n > 0 ==> y[..] == Stores(old(y[..]), x[..], incX, incY, n)
    ensures n > 0 && incY != 0 ==> View(y[..], 0, n, incY) == View(x[..], 0, n, incX)
  {
    if n <= 0 {
      return 0;
    }
    if incX == 1 && incY == 1 {
      UnitStride(n, x, y);
      StoresUnit(old(y[..]), x[..], n);
    } else {
      StridedCopy(n, x, incX, y, incY);
    }
    if incY != 0 {
      StoresCopies(old(y[..]), x[..], incX, incY, n);
    }
    return 0;
  }
}
