/**
 * The vector descriptor shared by the Level-1 kernels. A C pointer into a
 * buffer is an array together with an offset base; a vector of length n and
 * stride inc read through it has element k at offset base + k*inc. Also the
 * block split `n & -w` the dispatchers use.
 */
module Views {

  /** Every offset base + k*inc with 0 <= k < n lies in [0, len). */
  predicate Spans(len: int, base: int, n: int, inc: int)
  {
    n <= 0 || (0 <= base < len && 0 <= base + (n - 1) * inc < len)
  }

  lemma MulMono(a: int, b: int, c: int)
    requires 0 <= a <= b && 0 <= c
    ensures 0 <= a * c <= b * c
  {
    var d := b - a;
    assert b * c == a * c + d * c;
  }

  /** Division by h > 0 has a unique quotient and remainder. */
  lemma DivModUnique(i: int, h: int, q: int, r: int)
    requires h > 0 && 0 <= r < h && i == h * q + r
    ensures i / h == q && i % h == r
  {
    var k := q - i / h;
    assert h * k == i % h - r by {
      assert i == h * (i / h) + i % h;
      assert h * k == h * q - h * (i / h);
    }
    if k >= 1 {
      MulMono(1, k, h);
    } else if k <= -1 {
      MulMono(1, -k, h);
    }
  }

  /** The remainder modulo h from the remainder modulo w = 2h. */
  lemma ModHalf(i: int, h: int, w: int)
    requires h > 0 && w == 2 * h
    ensures i % h == (if i % w < h then i % w else i % w - h)
  {
    var q, r := i / w, i % w;
    assert i == w * q + r;
    if r < h {
      assert w * q == h * (2 * q);
      DivModUnique(i, h, 2 * q, r);
    } else {
      assert w * q + h == h * (2 * q + 1);
      DivModUnique(i, h, 2 * q + 1, r - h);
    }
  }

  /** The offsets in between the first and the last are in range too. */
  lemma SpansIndex(len: int, base: int, n: int, inc: int, k: int)
    requires Spans(len, base, n, inc) && 0 <= k < n
    ensures 0 <= base + k * inc < len
  {
    if inc >= 0 {
      MulMono(k, n - 1, inc);
    } else {
      MulMono(k, n - 1, -inc);
      assert k * -inc == -(k * inc) && (n - 1) * -inc == -((n - 1) * inc);
    }
  }

  lemma SpansPrefix(len: int, base: int, n: int, inc: int, m: int)
    requires Spans(len, base, n, inc) && 0 <= m <= n
    ensures Spans(len, base, m, inc)
  {
    if m > 0 {
      SpansIndex(len, base, n, inc, m - 1);
    }
  }

  /** Running offsets: advancing i == j * inc by m strides reaches element j + m. */
  lemma StrideAdvance(i: int, j: int, inc: int)
    requires i == j * inc
    ensures i + inc == (j + 1) * inc && i + 2 * inc == (j + 2) * inc
    ensures i + 3 * inc == (j + 3) * inc && i + inc * 4 == (j + 4) * inc
  {
  }

  /** The logical vector read from buffer a: element k is a[base + k*inc]. */
  function View(a: seq<int>, base: int, n: nat, inc: int): (v: seq<int>)
    requires Spans(|a|, base, n, inc)
    ensures |v| == n
    decreases n
  {
    if n == 0 then []
    else
      SpansPrefix(|a|, base, n, inc, n - 1);
      SpansIndex(|a|, base, n, inc, n - 1);
      View(a, base, n - 1, inc) + [a[base + (n - 1) * inc]]
  }

  lemma {:induction false} ViewAt(a: seq<int>, base: int, n: nat, inc: int, k: int)
    requires Spans(|a|, base, n, inc) && 0 <= k < n
    ensures 0 <= base + k * inc < |a| && View(a, base, n, inc)[k] == a[base + k * inc]
    decreases n
  {
    SpansIndex(|a|, base, n, inc, k);
    if k < n - 1 {
      SpansPrefix(|a|, base, n, inc, n - 1);
      ViewAt(a, base, n - 1, inc, k);
    }
  }

  /** With unit stride the logical vector is the n elements of a from base on. */
  lemma {:induction false} ViewUnit(a: seq<int>, base: int, n: nat)
    requires 0 <= base && base + n <= |a|
    ensures Spans(|a|, base, n, 1) && View(a, base, n, 1) == a[base..base + n]
    decreases n
  {
    if n > 0 {
      ViewUnit(a, base, n - 1);
      assert a[base..base + n] == a[base..base + n - 1] + [a[base + n - 1]];
    }
  }

  /** v is a logical vector gathered from buffer a at base with stride inc. */
  ghost predicate Gathers(a: seq<int>, base: int, inc: int, v: seq<int>)
  {
    forall k {:trigger v[k]} :: 0 <= k < |v| ==> 0 <= base + k * inc < |a| && v[k] == a[base + k * inc]
  }

  /** The view gathers: element k is the buffer element at base + k*inc. */
  lemma ViewGathers(a: seq<int>, base: int, n: nat, inc: int)
    requires Spans(|a|, base, n, inc)
    ensures Gathers(a, base, inc, View(a, base, n, inc))
  {
    forall k | 0 <= k < n
      ensures 0 <= base + k * inc < |a| && View(a, base, n, inc)[k] == a[base + k * inc]
    {
      ViewAt(a, base, n, inc, k);
    }
  }

  lemma GathersIsView(a: seq<int>, base: int, inc: int, v: seq<int>)
    requires Gathers(a, base, inc, v)
    ensures Spans(|a|, base, |v|, inc) && v == View(a, base, |v|, inc)
  {
    var n := |v|;
    if n > 0 {
      // mention v[0] and v[n - 1] so that Gathers yields the two end offsets
      var first, last := v[0], v[n - 1];
      assert 0 <= base + 0 * inc < |a| && 0 <= base + (n - 1) * inc < |a|;
      ViewGathers(a, base, n, inc);
    }
  }

  /**
   * `n & -w` on a two's-complement integer, for w a power of two: clearing the
   * low bits rounds n down to a multiple of w, which is (n / w) * w with
   * Dafny's floor division.
   */
  function AndNeg(n: int, w: int): (r: int)
    requires w > 0
    ensures r % w == 0 && r <= n < r + w
  {
    MultipleMod(n / w, w);
    (n / w) * w
  }

  lemma MultipleMod(q: int, w: int)
    requires w > 0
    ensures (q * w) % w == 0 && (q * w) / w == q
  {
    var m := q * w;
    var k := q - m / w;
    assert w * k == m % w by {
      assert m == w * (m / w) + m % w;
    }
    if k >= 1 {
      MulMono(1, k, w);
    }
  }
}
